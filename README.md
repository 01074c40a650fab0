# Fibonacci heap, modelled in Dafny

This project models `FibonacciHeap<T>` from `FibonacciHeap.hxx` with
`T = int`. That is a Fibonacci heap made of `Node<T>` records linked by raw
pointers. The heap keeps three fields:

- `roots`: an entry into the circular, doubly linked ring of tree roots;
- `min`: a root holding a least value;
- `degree`: the number of roots.

Each node keeps its value and a `parent` pointer. It also keeps `prev`
and `next` links into its sibling ring, a `children` pointer into its
children's ring, a `degree` counter of children and a `marked` flag.

The model is imperative, like the source. The class `Heap.FibonacciHeap`
holds the same three fields over an arena `nodes: seq<Node>`. Node
pointers are arena indices, with `NIL` (-1) for `nullptr`, and every
pointer update rewrites one record of the arena. `Empty` and `Top`,
which only read the heap, are functions with `reads this`; the
operations that change it are methods with `modifies` clauses:

- `Push`, which allocates the next arena index;
- `Pop`, split into its phases: child promotion, unlinking `min`, the
  degree-table consolidation and the rebuild of the root ring;
- `Update`, with its cut and cascading-cut loop.

Loops are `while`/`for` loops with their invariants. The consolidation
table is a `seq<int>`, the `std::vector` it is in the source.

Two invariants are used.

- `Shaped()` says every pointer the heap or a node holds stays inside the
  arena. Every operation keeps it on every input, including the
  operations whose logic is wrong.
- `Valid()` says the heap is a forest of heap-ordered trees (`Forest`
  module). It is described by ghost fields:
  - `Roots`, the root ring;
  - `Live`, the nodes the heap owns;
  - `Kids`, each node's children ring;
  - `Path`, each node's path from its tree's root.

  Every children ring and the root ring are proper rings. `degree` counts
  the roots, each node's `degree` counts its children, and `min` is a
  least root.

The modules:

- `Nodes`: node records, rings, splicing and unlinking, `size_t`
  decrement.
- `Forest`: the forest invariant.
- `Consolidation`: the degree table and linking two roots.
- `Sweep`: the consolidation walk and its weight argument.
- `Steps`: the value-level lemmas for `Push` and `Pop`.
- `Cuts`: the `Update` loop.
- `Heap`: the class.
- `Scenarios`: the repository's tests, as methods with proved outcomes.

## How the source behaves

The model follows the code, including the places where it does not do
what a Fibonacci heap should. The contracts state what the code does.

- **`Pop` does not count promoted children.** The loop at lines 89-92
  counts `min->degree` down to zero before line 98 adds it to `degree`.
  The children join the root ring but are not counted.
  - With one counted root (lines 101-105), the heap becomes empty and the
    children are dropped.
  - Otherwise the walk covers only `degree - 1` roots from `min`'s
    successor. `Steps.Survivors` names them, and `Pop`'s contract says the
    heap keeps exactly their trees.
  - `Steps.ChildlessSurvivors` proves that nothing is lost when `min` has
    no children.
  - `Scenarios.LostChild` shows the loss concretely. Push 1, 2, 3, then
    pop twice: the heap reports itself empty, though 3 was never popped.
- **The consolidation table can be too small.** Line 114 sizes it from
  the number of roots, not of nodes, so lines 120 and 143 can index past
  its end.
  - `Pop` returns `TableOverflow` in that case. Its contract says when:
    exactly when the walked roots weigh at least `2^size`, where a root of
    degree `d` weighs `2^d`.
  - `Sweep.FreshRootsFit` shows that one-node trees always fit.
- **`Update` does not check that the value decreased** (line 174). An
  increase can break heap order; the contract promises a least `min`
  only after a decrease.
- **`Update` does not finish the cut.** Lines 187-188 clear the child's
  `parent` and lower the parent's counter. The child stays in its
  parent's children ring and never joins the root ring.
  - `Heap.FibonacciHeap.CutParent` and `Cuts.CutFrame` state exactly
    that.
  - The heap is proved valid again only when the updated node is a root
    (`Cuts.RootDecrease`).
- **Roots can be marked.** Two places leave a marked node in the root
  ring, so `Valid()` does not ask roots to be unmarked.
  - At lines 190-192 a parent that is itself a root gets marked.
  - The promotion loop of `Pop` (lines 89-92) clears each child's
    `parent` but not its `marked` flag, so a marked child becomes a marked
    root. `Steps.CutSoFar` keeps every field but `parent`.
- **`Update` can lift a tree root a second time.** Suppose every node
  above the updated one on its path is marked, including the tree root
  at the top. The loop then reaches that root as a marked parent, and
  lines 195-204 splice it before `roots` again although it is already in
  the root ring, and count it in `degree` a second time.
  - `Cuts.TreeRootRelifted` shows that the lifted nodes then include
    that root, which is already a member of the root ring.
  - `Heap.FibonacciHeap.Cascade` states the arena the splice leaves
    (`Cuts.Final`) on every input, including this one.
  - The new root ring is proved to be the old one followed by the lifted
    nodes only when the loop stops below the tree root
    (`Cuts.ExitedRing`).
- **The parent's counter is a `size_t`.** `parent->degree--` on a parent
  whose counter is already zero wraps to `SIZE_MAX`. `Nodes.SizeDec`
  models that.

## Model

| member | source | states |
|---|---|---|
| Heap.FibonacciHeap.constructor | FibonacciHeap.hxx:26-28 | a new heap has null `roots` and `min` and zero `degree`, owns no node and is valid |
| Heap.FibonacciHeap.Empty | FibonacciHeap.hxx:48-50 | on a valid heap, true exactly when the heap owns no node |
| Heap.FibonacciHeap.Top | FibonacciHeap.hxx:52-58 | fails (`None`, the `runtime_error`) exactly when `degree` is 0; on a valid heap the result is the value of a live node and at most every live node's value |
| Heap.FibonacciHeap.MinIsLeast | FibonacciHeap.hxx:52-58 | on a valid heap `min` is a live node whose value is least among all live nodes, and the heap owns no node exactly when `degree` is 0 |
| Forest.MinBelowLive | FibonacciHeap.hxx:57 | a least root is at most every live value, since each live node's tree root is in the root ring and heap order holds along the path |
| Heap.FibonacciHeap.Push | FibonacciHeap.hxx:60-81 | a fresh parentless, childless, unmarked node of degree 0 holding the value is spliced into the root ring just before `roots`; `degree` grows by one; `min` moves to it only when strictly smaller; a valid heap stays valid with the new node as the last root and a new live one-node tree |
| Heap.FibonacciHeap.Insert | FibonacciHeap.hxx:61-80 | the pointer work of `Push`: the new record at the next arena index, the splice before `roots` (or a ring of its own on an empty heap), `min` and `degree` |
| Steps.PushValid | FibonacciHeap.hxx:63-78 | the arena `Push` leaves is a valid forest with the new node as a one-node tree at the end of the root ring, and `min` is still a least root |
| Nodes.SpliceBefore | FibonacciHeap.hxx:67-71 | splicing `h` before `at` changes only ring links: `h` comes between `at`'s old predecessor and `at`, and no node other than `h`, `at` and that predecessor changes |
| Nodes.SpliceBeforeRing | FibonacciHeap.hxx:67-71 | splicing a node outside the ring `s` before `s[0]` yields the ring `s + [h]` |
| Heap.FibonacciHeap.Pop | FibonacciHeap.hxx:83-171 | fails with `EmptyHeap` exactly on an empty heap and then changes nothing; keeps every value; with one counted root a valid heap ends empty; otherwise `TableOverflow` happens exactly when the walked roots outweigh the table, and a completed pop leaves a valid heap with at least one root, roots of strictly increasing degree, whose live nodes are exactly the trees of the walked roots, and whose `min` is the first least root of the new ring |
| Heap.FibonacciHeap.PopMany | FibonacciHeap.hxx:107-171 | the same outcome and final state as `Pop`, including the first least `min`, stated against the heap before the children were promoted |
| Heap.FibonacciHeap.PromoteChildren | FibonacciHeap.hxx:88-99 | `min`'s degree ends at 0 and `degree` is unchanged; on a valid heap the children become roots of their own trees and the root ring is the old one followed by them |
| Heap.FibonacciHeap.CutChildren | FibonacciHeap.hxx:89-92 | the loop visits `min`'s children ring once, clearing every child's parent, and counts `min`'s degree down to 0; no other degree and no value changes |
| Steps.CutStepNext | FibonacciHeap.hxx:89-92 | one turn of the loop clears the next child's parent and moves `min->children` on along the ring |
| Heap.FibonacciHeap.CutAndJoin | FibonacciHeap.hxx:88-96 | the children lose their parent, then their ring is joined after the last root |
| Heap.FibonacciHeap.JoinKids | FibonacciHeap.hxx:94-96 | the children ring is hooked in after the last root and the `prev` links at the two seams are swapped |
| Nodes.RingJoin | FibonacciHeap.hxx:94-96 | two disjoint rings relinked at their seams form the single ring `R + C` |
| Steps.PromoteRing | FibonacciHeap.hxx:94-96 | the roots followed by `min`'s former children form one ring |
| Steps.PromoteValid | FibonacciHeap.hxx:88-99 | after promotion the heap is again a forest whose root ring is the old ring followed by `min`'s children, `min` now childless and still least |
| Heap.FibonacciHeap.Clear | FibonacciHeap.hxx:101-105 | `roots` and `min` become null and `degree` 0, so the heap is valid and owns nothing |
| Heap.FibonacciHeap.UnlinkMin | FibonacciHeap.hxx:107-112 | `roots` moves to `min`'s successor, `min` is unlinked from the ring, `degree` drops by one and no value changes |
| Nodes.UnlinkRing | FibonacciHeap.hxx:109-110 | unlinking a member of a ring of two or more leaves the others as a ring, read from the member after it |
| Steps.UnlinkValid | FibonacciHeap.hxx:107-112 | once `min` is childless, unlinking it leaves a forest whose roots are the other ring members, read from `min->next` |
| Steps.ChildlessSurvivors | FibonacciHeap.hxx:88-118 | when `min` has no children the walk covers every other root, and the popped heap keeps every live node but `min` |
| Heap.FibonacciHeap.Consolidate | FibonacciHeap.hxx:114-144 | the table has `floor(log2(degree)) + 1` slots; the walk either stops with `TableOverflow` at an index at or past the end, exactly when the walked ring weighs at least `2^size`, or leaves `degree` 0 and every slot `k` holding a root of degree `k`, with the slots holding exactly the live parentless nodes, each once, and the forest intact |
| Heap.FibonacciHeap.Walk | FibonacciHeap.hxx:116-144 | one turn per counted root until `degree` is 0 or a carry runs past the table; an overflow implies the walked ring outweighs the table |
| Heap.FibonacciHeap.Settle | FibonacciHeap.hxx:117-143 | the root at `roots` is taken, `roots` moves on, and the root is carried up the table until it occupies a free slot or its degree reaches past the end |
| Heap.FibonacciHeap.Carry | FibonacciHeap.hxx:120-141 | while the slot for the carried root's degree is inside the table and occupied, the two are linked and the slot cleared; it ends at a free slot or past the end, with the table still holding degree-`k` roots in slot `k` |
| Consolidation.FloorLog2 | FibonacciHeap.hxx:114 | `2^k <= n < 2^(k+1)` |
| Consolidation.Link | FibonacciHeap.hxx:126-141 | `other` gets `current` as parent and `current` counts one more child; `current`'s children pointer is kept, or set to `other` when it had none; every other node keeps its parent, children pointer and degree; only `other`, `current`'s first child and that child's predecessor can change their ring links; values and marks are unchanged |
| Consolidation.LinkKids | FibonacciHeap.hxx:130-139 | in a forest, linking `other` below `current` makes `current`'s children ring its old children followed by `other` |
| Consolidation.LinkTableOk | FibonacciHeap.hxx:120-141 | linking and clearing slot `d` keeps every remaining slot `k` holding a root of degree `k` |
| Consolidation.LinkForest | FibonacciHeap.hxx:126-141 | linking two live roots keeps a forest: the larger root's tree hangs below the smaller as the last child, and heap order holds on the new edge |
| Sweep.WalkLink | FibonacciHeap.hxx:120-141 | one link inside the walk: the smaller value (the carried root on a tie) becomes the parent, and the walk's invariant is kept with that root carried on at one more degree |
| Sweep.WalkOverflow | FibonacciHeap.hxx:117-120 | a carry whose degree reaches past the table means the roots walked so far, and so the whole ring, weigh at least `2^size` |
| Sweep.WalkEnd | FibonacciHeap.hxx:116-144 | once every counted root is walked, no live node is lost, the occupied slots are exactly the live parentless nodes, each once, and the ring weighed less than `2^size` |
| Sweep.TableWeightBound | FibonacciHeap.hxx:114-115 | a table whose slot `k` holds a root of degree `k` weighs less than `2^size` |
| Sweep.FreshRootsFit | FibonacciHeap.hxx:114 | any number of degree-0 roots fits the table built for that count |
| Consolidation.PresentIncreasing | FibonacciHeap.hxx:114-144 | read in slot order, the roots of a well-formed table have strictly increasing degrees, each below the table's size, so no two share a degree |
| Consolidation.PresentDistinct | FibonacciHeap.hxx:143 | a well-formed table holds no node twice |
| Heap.FibonacciHeap.Rebuild | FibonacciHeap.hxx:146-169 | the occupied slots, in slot order, become a closed ring entered at the first of them; `degree` is their count, `min` is the first of the least-valued ones, and only ring links of those nodes change |
| Heap.FibonacciHeap.ThreadAll | FibonacciHeap.hxx:146-167 | the loop leaves the occupied slots threaded as an open chain from `roots`, counted by `degree`, with `min` the first least |
| Heap.FibonacciHeap.ThreadAfter | FibonacciHeap.hxx:155-162 | a node is hooked after the last threaded root and becomes `min` only when strictly below it |
| Consolidation.FirstLeastSnoc | FibonacciHeap.hxx:160-162 | a new member replaces the first least one only when strictly smaller, so the earliest least root stays `min` |
| Nodes.ChainClose | FibonacciHeap.hxx:169 | closing a chain whose first member's `prev` is its last member makes it a ring |
| Steps.RebuildValid | FibonacciHeap.hxx:146-169 | the rebuilt ring over the consolidated forest makes the heap valid again |
| Heap.FibonacciHeap.Rethread | FibonacciHeap.hxx:146-169 | rebuilding from a well-formed table over a forest gives a valid heap whose root ring is the occupied slots in slot order, whose `min` is the first least of them, whose live nodes are the forest's and whose roots have strictly increasing degrees |
| Heap.FibonacciHeap.Update | FibonacciHeap.hxx:173-206 | on every input, valid or not, the arena, `min` and `degree` afterwards are what `Cascade` states for every input, from the arena with the new value, which determines them (`Cuts.ExitedUnique`); on a valid heap the walk climbs the node's path; after a decrease `min` is a least live node; after a decrease at a root the heap is valid with only the value changed |
| Heap.FibonacciHeap.Lower | FibonacciHeap.hxx:174-205 | the effect `Update` states, and on a valid heap also: the path the walk climbs is the node's path in the forest, and when the walk stops below the tree root the new root ring is the old one followed by the lifted nodes in the order they were lifted |
| Heap.FibonacciHeap.Revalue | FibonacciHeap.hxx:174 | stores the value, and on a valid heap the node's path and the root ring are unchanged and the old `min` was least |
| Heap.FibonacciHeap.SetValue | FibonacciHeap.hxx:174 | only the one node's value changes |
| Heap.FibonacciHeap.Cascade | FibonacciHeap.hxx:176-205 | on every input the loop ends and leaves exactly the arena `Cuts.Final` builds: round by round the node reached is cut from its parent (`CutFrom`: the parent pointer is cleared and the parent's counter drops as a `size_t`) and that parent is spliced before `roots` and unmarked (`LiftTo`); in the last round the node reached has no parent, or it is cut and the parent is marked. Each lifted node, and the stop, is the parent pointer (line 182) of the node reached before it in the arena the earlier rounds left (`Cuts.ParentChain`, `Cuts.LoopExit`), so the lifted nodes, the stop and the arena are determined by the starting arena (`Cuts.ExitedUnique`). Every lifted node was marked, none is lifted twice, and `degree` grows by one per lifted node. `min` is `Cuts.MinAfter` of the old `min` over `node` and then the lifted nodes in order: the first of them holding the least value when that value is strictly below the old `min`'s, and the old `min` otherwise (`Cuts.MinAfterFirst`). On a valid heap the lifted nodes are the ones just above `node` on its path, the stop is the first unmarked one or NIL after the tree root, and when the stop is not NIL the root ring is the old ring followed by the lifted nodes |
| Heap.FibonacciHeap.Climb | FibonacciHeap.hxx:177-205 | one round: `min` is compared, and the round ends at a parentless node, stops at an unmarked parent, or lifts a marked parent that was not lifted before and goes on from it; the node it goes on from is the parent pointer of `current` in the arena the earlier rounds left, and the arena is the one `Lifts` gives for one more round |
| Heap.FibonacciHeap.Compare | FibonacciHeap.hxx:178-180 | `min` becomes the current node exactly when its value is strictly below `min`'s |
| Cuts.CompareMin | FibonacciHeap.hxx:178-180 | the current node becomes `min` only when strictly smaller, so `min` stays at most every node compared and is `MinAfter` of the old `min` over the nodes compared, now including the current one |
| Cuts.MinAfterFirst | FibonacciHeap.hxx:178-180 | comparing nodes in order and moving `min` only on a strictly smaller value ends at the first node holding the least value when that value is below the starting `min`'s, and at the starting `min` otherwise; the result is at most the start and every node compared |
| Heap.FibonacciHeap.EndRound | FibonacciHeap.hxx:182-184 | a node reached without a parent ends the loop with the arena `Final` gives for a NIL stop; on a valid heap that node is the tree root, so every node above `node` was lifted |
| Heap.FibonacciHeap.Cut | FibonacciHeap.hxx:187-188 | on every input the arena becomes `CutFrom` of the arena the earlier rounds left: the node reached loses its parent and the parent's counter drops once as a `size_t`; on a valid heap the parent is the next node up the path and its counter had not been lowered before |
| Heap.FibonacciHeap.CutParent | FibonacciHeap.hxx:187-188 | the child's `parent` becomes null and the parent's counter is decremented as a `size_t`; no ring or children pointer changes |
| Nodes.SizeDec | FibonacciHeap.hxx:188 | decrement modulo `2^64`: zero wraps to `SIZE_MAX` |
| Heap.FibonacciHeap.Stop | FibonacciHeap.hxx:190-192 | an unmarked parent is marked and the loop ends there, with the arena `Final` gives for that stop |
| Heap.FibonacciHeap.Lift | FibonacciHeap.hxx:195-204 | on every input the arena becomes `SpliceBefore(nodes, roots, parent)` with `parent` unmarked, `degree` grows by one, and the loop goes on from `parent`, which was marked and had not been lifted before |
| Heap.FibonacciHeap.LiftNode | FibonacciHeap.hxx:197-203 | the arena becomes `SpliceBefore(nodes, roots, p)` with `p` unmarked |
| Cuts.LiftsSnoc | FibonacciHeap.hxx:187-204 | one more round of `Lifts` is the cut of the node reached from the new lifted node, then `LiftTo` on that node |
| Cuts.LiftsFrame | FibonacciHeap.hxx:177-205 | in any arena, the rounds of `Lifts` keep every value and children pointer; a node is marked afterwards exactly when it was marked and was not lifted; only `node` and lifted nodes lose their parent, and all of them but the node reached have; each lifted node's counter is lowered once as a `size_t` and every other counter is kept |
| Cuts.LiftsLinks | FibonacciHeap.hxx:197-201 | in any arena, the ring links after the rounds of `Lifts` are exactly those of splicing the lifted nodes, in order, before `roots` |
| Cuts.LiftsAt | FibonacciHeap.hxx:177-205 | `LiftsFrame` for one node: its value is kept, it is marked exactly when it was and was not lifted, its parent is kept unless it is `node` or lifted, and its counter is kept unless it was lifted |
| Cuts.FinalFrame | FibonacciHeap.hxx:177-205 | at the loop's end, in addition to `LiftsFrame` and `LiftsLinks`: the node reached has no parent, and a non-NIL stop is marked and has its counter lowered once more |
| Cuts.ExitedValues | FibonacciHeap.hxx:177-205 | the loop changes no value |
| Cuts.CutFrameStep | FibonacciHeap.hxx:187-188 | a cut adds the node reached to the parentless ones and the parent to the lowered counters, and keeps every other field |
| Cuts.StopFrame | FibonacciHeap.hxx:190-192 | marking the stop changes only its `marked` flag |
| Cuts.LiftFrame | FibonacciHeap.hxx:195-204 | a lift adds the parent to the lifted nodes: it was marked and not lifted before, and it ends unmarked with its parent pointer kept |
| Cuts.LiftLinks | FibonacciHeap.hxx:197-201 | a lift changes the ring links as one more splice before `roots` does |
| Cuts.MinLift | FibonacciHeap.hxx:178-204 | once the node reached was compared, lifting its parent keeps `min` at most every node compared so far and keeps it `MinAfter` of the nodes compared |
| Cuts.LiftStep | FibonacciHeap.hxx:182-204 | lifting the marked parent of the node reached adds one round: the parent was marked and not lifted before, it is the next link of the parent chain, `min` is unchanged, and the arena is one more `LiftTo` after the cut |
| Cuts.ParentChainSnoc | FibonacciHeap.hxx:182-195 | the parent pointer of the node reached extends the chain of lifted nodes by one |
| Cuts.ParentChainPrefix | FibonacciHeap.hxx:182-195 | in a chain of lifted nodes, each member is the parent pointer of the node reached by the rounds before it |
| Cuts.ChainsAgree | FibonacciHeap.hxx:182-195 | two chains of lifted nodes from the same node in the same arena agree as far as both go |
| Cuts.ChainGoesOn | FibonacciHeap.hxx:182-195 | when a longer chain of lifted nodes exists, the parent of the node a shorter one reaches is that chain's next member and is still marked, so the loop cannot have stopped there |
| Cuts.ExitedUnique | FibonacciHeap.hxx:177-205 | from a given arena and node, the loop's exit is unique: any two sets of lifted nodes and stops that both satisfy `Exited` are equal, and so are the arenas they leave |
| Cuts.NextUp | FibonacciHeap.hxx:182-188 | on a valid heap the parent of the node reached is the next node up the path, neither lifted before nor `node` |
| Cuts.CutUpStep | FibonacciHeap.hxx:187-188 | on a valid heap the cut lowers that parent's counter for the first time and keeps the parent's own parent |
| Cuts.StopUp | FibonacciHeap.hxx:190-192 | marking the stop keeps the path facts and lowers no counter |
| Cuts.LiftUp | FibonacciHeap.hxx:195-204 | on a valid heap, lifting the next node up the path keeps the path facts with one more lifted node and keeps that node's parent |
| Cuts.SpliceAllRing | FibonacciHeap.hxx:197-201 | splicing nodes outside a ring, one after another, before its first member gives the ring followed by those nodes in order |
| Cuts.ExitedRing | FibonacciHeap.hxx:177-205 | on a valid heap, when the loop stops below the tree root of `node`'s path, the root ring afterwards is the old ring followed by the lifted nodes |
| Cuts.TreeRootRelifted | FibonacciHeap.hxx:183-204 | when every node above `node` on its path was marked, the lifted nodes include the tree root, which is already a live member of the root ring |
| Cuts.MarkedShrinks | FibonacciHeap.hxx:177-205 | each round that goes on lifts one more node that was marked when the loop began, so the loop terminates |
| Cuts.AncestryTop | FibonacciHeap.hxx:182-184 | on a node's path only the tree root has no parent, so the loop ends exactly there |
| Cuts.PathAncestry | FibonacciHeap.hxx:182-188 | on a valid heap a live node's path is a chain of parent pointers from a parentless node, made of live nodes, which the root ring meets only at its first member |
| Cuts.PathPrefixes | FibonacciHeap.hxx:182-188 | in a forest a live node's path starts at a parentless node, follows parent pointers down to the node, is made of live nodes, and each member's own path is the prefix ending at it |
| Cuts.ValueKeepsPath | FibonacciHeap.hxx:174 | on a valid heap, storing a new value at a live node keeps its path a chain of parents from a root and keeps the root ring a ring entered at `roots` |
| Cuts.DecreaseMin | FibonacciHeap.hxx:174-205 | after a decrease on a valid heap, `min` ends at a least live node |
| Cuts.RootDecrease | FibonacciHeap.hxx:174-184 | a root's value lowered on a valid heap keeps it valid, with that root the new `min` when strictly below the old one |
| Heap.FibonacciHeap.RootUpdated | FibonacciHeap.hxx:174-184 | for a root, the loop ends in its first round with nothing lifted, and the heap is valid with only the value changed |
| Scenarios.EmptyThenPush | tests/FibonacciHeap.test.cxx:5-11 | a new heap is empty, has no top and fails a pop with `EmptyHeap`; after one push it is not empty |
| Scenarios.PushThree | tests/FibonacciHeap.test.cxx:14-25 | pushing 3, 1, 2 gives the tops 3, 1, 1 |
| Scenarios.PushSixPop | tests/FibonacciHeap.test.cxx:36-47 | pushing 3, 4, 1, 6, 5, 2 and popping completes the pop, and the top is 2 |
| Scenarios.UpdateTwice | tests/FibonacciHeap.test.cxx:49-65 | after pushing 1 to 8 and popping, lowering the node holding 6 to 3 leaves the top at 2, and lowering the node holding 7 to 1 makes it 1 |
| Scenarios.LowerToOne | tests/FibonacciHeap.test.cxx:63-64 | lowering a node to 1 when every value is at least 1 makes the top 1, on any arena of that shape, without depending on which nodes are roots |
| Scenarios.LostChild | FibonacciHeap.hxx:88-105 | pushing 1, 2, 3 and popping twice completes both pops, the first leaving top 2, and the heap then reports itself empty though 3 was never popped |

## Left out

- The destructor and `Remove` (lines 31-46) are not modelled. They only free memory, and they free `min` instead of the node they visit.
- Allocation and deallocation: `new` becomes the next arena index and `delete` is not modelled. A popped node's record stays in the arena, so the model does not capture the use of a freed node through an old handle.
- Exceptions: `Top` returns `None` and `Pop` returns `EmptyHeap` where the source throws `std::runtime_error`. The message text is not kept.
- The element type is `int` and `Top` returns a value, not a reference. Move semantics (`std::forward`) are not modelled.
- Line 114 uses the floating-point `std::floor(std::log2(degree))`. It is modelled by the exact integer `FloorLog2`; rounding of the conversion to `double` for counts above `2^53` is not modelled.
- Indexing the consolidation table past its end (lines 120 and 143) is undefined behaviour in the source. The model stops there with the `TableOverflow` outcome and promises nothing about the heap's contents beyond memory safety.
- The heap's own `degree` counter is an unbounded `nat`, so `degree++` and `degree += ...` never wrap. A heap would need `2^64` roots for them to wrap.
- Amortised running time is not modelled.
- Heap.FibonacciHeap.Update: the result is proved to be a valid heap only when the updated node is a root and its value did not grow, because the source's cut leaves the node in its parent's children ring and can mark roots. For every node, on a valid heap or not, the contract states the exact arena the loop leaves (`Cuts.Final` of lifted nodes and a stop that `Cuts.ExitedUnique` shows are unique); on a valid heap it also states that `min` is least after a decrease.
- Heap.FibonacciHeap.Update: requires `degree > 0`, as do `Lower`, `Revalue` and `Cascade`. On an empty heap `min` is null and line 178 dereferences it, which is undefined behaviour, so that case is excluded rather than modelled.
- Heap.FibonacciHeap.Update: the new root ring is stated by `Lower` and `Cascade`, which `Update` calls, and not repeated in `Update`'s own contract.
- Cuts.ExitedRing: it covers only a walk that stops below the tree root. After the tree root is spliced in a second time, the model states the exact arena but no ring over it.
- Heap.FibonacciHeap.Pop: after `TableOverflow` only memory safety and the unchanged values are promised, since the source's behaviour there is undefined.
- Scenarios.LowerToOne: it states only the top after the second update of the test, not the validity of the heap. The model does not derive which nodes are roots after `PushEightPop`, so it does not prove the heap valid after the first update, although that update lowers a root.
- The test file `tests/main.cxx` is not part of this model, because it calls an interface (`Insert`, `FindMin`, `DeleteMin`, `DecreaseKey`) that the header does not define. The `NodeIterator` handles of `tests/FibonacciHeap.test.cxx` are arena indices here.
