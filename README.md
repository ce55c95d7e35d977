# ArrayTree and Tree, modelled in Dafny

This project models the two general (n-ary) tree nodes of the `baum` package:

- **`ArrayTree<T>`** has these parts:
  - a content value;
  - a hand-grown child buffer (`children`, `capacity`, `used`);
  - a back-link to its parent, and its own slot number in the parent (`parent`, `parentIndex`).

  Every attachment goes through `setParent`. It refuses three kinds of node, checked in this order:
  - a node that already has a parent;
  - the node itself;
  - a node whose subtree contains the new parent.
- **`Tree<T>`** has the same growable buffer, without back-links and without any checks. Its array constructors and `setChildren` adopt the caller's array itself.

## Files

- `array_tree.dfy` (module `ArrayTrees`) holds `ArrayTree` as a class on the heap.
  - The invariant of a forest of nodes is `Wf(U)` over a ghost universe `U`:
    - `used <= capacity == |children|`;
    - every used slot holds a node whose back-link names the slot;
    - every back-link names a slot that holds the node.
  - Each node also carries its parent chain in the ghost field `ancestors`. The chain grows strictly from parent to child, which rules out cycles.
  - The subtree `Sub(n, U)` is the set of nodes with `n` on their chain. It is both the meaning of `contains` and the termination measure of the recursive queries.
  - Each mutator is proved against a two-state relation (`Attached`, `DetachedCore`, `Replaced`, `Filled`, `Reserved`, `Rebuffered`). A lemma then shows that the relation keeps `Wf`. For `Replaced` and `Reserved` it keeps `Wf` everywhere except at the slot being filled (`WfBut`); `FillKeepsWf` then shows that linking that slot restores `Wf`.
- `tree_shape.dfy` (module `TreeShape`) defines the value a subtree denotes: `Shape<T> = Node(content, kids)`.
  - The functions over it specify `size`, `hashCode` and the text rendering.
  - It also proves that a rendering has exactly one line per node.
- `java_ints.dfy` (module `JavaInts`) covers Java's 32-bit wrap-around and a decimal form in ASCII digits `0`-`9`. That is what `String.format("%d")` produces under a default locale whose zero digit is `0`.
- `tree.dfy` (module `Trees`) holds `Tree` as a class over a real `array`, because the array is shared with callers.
- `scenario.dfy` (module `Scenario`) holds the sample tree that `Main.testBaum` builds, and the comparison `Main.main` makes between two copies of it.
- `wrappers.dfy` holds `Option`, which stands for a Java reference that may be `null` (content values).

Calls into code the model cannot see become function parameters:
- `content.hashCode()` is `hash`;
- `content.getClass().getSimpleName()` is `typeName`;
- `content.toString()` is `show`;
- the overridable `toStringSimple`, as seen from the nested `toString` calls, is `line`.

The Java `assert`s become `requires`. A rejection by `setParent` (an `IllegalArgumentException`) is the result `Fail(error)`. The model keeps every change the Java code has already made before it throws.

## Model

| member | source | states |
|---|---|---|
| ArrayTrees.ArrayTree.constructor | baum/src/ArrayTree.java:43-46 | a new node is an orphan leaf: no parent, index -1, no buffer, no children, the given content |
| ArrayTrees.ArrayTree.WithChildren | baum/src/ArrayTree.java:48-56 | a fresh node adopts the given nodes in order. For a fresh parent, the only possible rejection is a node that is taken or given twice, and the first such node ends the call. The nodes before it are linked to their slots. Every other node of the forest keeps its parent and parent index, on success and on failure alike. On success the forest invariant holds with the new node added, and `used == capacity == number of nodes` |
| ArrayTrees.FirstTaken | baum/src/ArrayTree.java:48-56 | the index of the first given node that already has a parent or repeats an earlier one, and every node before it is free and distinct |
| ArrayTrees.FreshVerdicts | baum/src/ArrayTree.java:48-56 | for a fresh parent, the loop's first rejection is exactly the first taken or repeated node, and it is rejected as already attached |
| ArrayTrees.FreshKeepsWf | baum/src/ArrayTree.java:43-46 | a fresh orphan leaf can join a well-formed forest without breaking the invariant |
| ArrayTrees.ArrayTree.Kinds | baum/src/ArrayTree.java:150-180 | `isRoot` and `isOrphan` coincide and mean an empty parent chain. `isLeaf` and `isEmpty` coincide and mean no child shapes. `isInner` means having both a parent and a child |
| ArrayTrees.ArrayTree.AddChild | baum/src/ArrayTree.java:97-121 | the verdict is exactly `setParent`'s: taken, itself, or an ancestor, in that order. On rejection no node changes. On success the child is linked at slot `old used`, `used` grows by one, earlier slots are kept, and capacity becomes 1 (from 0) or doubles when full. The forest invariant is kept either way |
| ArrayTrees.ArrayTree.Append | baum/src/ArrayTree.java:102-120 | the storage half of `addChild`: one more used slot holding the node, earlier slots kept, the growth rule, and `used <= capacity` afterwards |
| ArrayTrees.ArrayTree.Grown | baum/src/ArrayTree.java:108-118 | the new buffer has the new capacity, starts with the old slots and is empty beyond them |
| ArrayTrees.AttachKeepsWf | baum/src/ArrayTree.java:97-145 | a successful `addChild` step (the child linked at the next slot, its subtree's chains extended by the parent's chain, nothing else changed) keeps the forest invariant |
| ArrayTrees.ArrayTree.SetParent | baum/src/ArrayTree.java:126-145 | the outcome is the three-way verdict in source order. On rejection the node and its subtree are unchanged. On success the node names the new parent and index, and every chain in its subtree is extended by the parent's chain |
| ArrayTrees.ArrayTree.Contains | baum/src/ArrayTree.java:251-266 | the answer is true exactly when the target is this node or a node below it (by identity). It also works while one slot is being replaced, when the target is the node owning that slot |
| ArrayTrees.SubSplit | baum/src/ArrayTree.java:255-263 | a node strictly below `n` lies in the subtree of one of `n`'s used slots, which is what lets the child-by-child search be complete |
| ArrayTrees.AncestorIsHigher | baum/src/ArrayTree.java:6-7 | a node's ancestors sit strictly higher than the node, so no node is its own ancestor (no cycles) |
| ArrayTrees.SubOfChild | baum/src/ArrayTree.java:6-7 | a child's subtree is a proper part of its parent's subtree |
| ArrayTrees.ArrayTree.RemoveChild | baum/src/ArrayTree.java:67-88 | with the shift guard as evidently intended: the removed child is orphaned, `used` drops by one, capacity is kept, the remaining children keep their order and each knows its new slot, slot `used` is cleared, and the invariant is kept |
| ArrayTrees.ArrayTree.RemoveChildAsWritten | baum/src/ArrayTree.java:67-88 | as written: the removed child is orphaned, `used` drops by one and earlier slots are kept. When the index is not the old second-to-last slot, the result is correct and the invariant holds. At the second-to-last slot, the orphan stays in its slot and the last child falls out while it still names this parent, so the invariant is broken |
| ArrayTrees.ArrayTree.Unlink | baum/src/ArrayTree.java:71-87 | the body of `removeChild` with the intended guard establishes the `removeChild` step relation |
| ArrayTrees.ArrayTree.UnlinkAsWritten | baum/src/ArrayTree.java:71-87 | the body as written meets the step relation except at the old second-to-last slot, where it shifts nothing |
| ArrayTrees.ArrayTree.Compact | baum/src/ArrayTree.java:76-87 | one slot fewer, later children moved one slot left and renumbered, freed slot cleared, and no other node's index touched |
| ArrayTrees.ArrayTree.CompactAsWritten | baum/src/ArrayTree.java:76-87 | the guard compares against the decremented `used`, so at the old second-to-last slot no index changes and the removed slot keeps its node |
| ArrayTrees.ArrayTree.ShiftLeft | baum/src/ArrayTree.java:80-84 | slots `index..used-1` take the next slot's node, which learns its new slot, and nothing else is renumbered |
| ArrayTrees.ArrayTree.Orphan | baum/src/ArrayTree.java:71-74 | the removed node gets no parent and index -1, and its subtree's chains lose the old parent's chain |
| ArrayTrees.ArrayTree.RemovalFacts | baum/src/ArrayTree.java:67-69 | a used slot of a node in a well-formed forest holds a child that lies outside its parent's ancestry, as the removal relies on |
| ArrayTrees.DetachKeepsWf | baum/src/ArrayTree.java:67-88 | a `removeChild` step (orphan the child, shift and renumber the rest, cut the chains) keeps the invariant |
| ArrayTrees.ArrayTree.RemoveChildNode | baum/src/ArrayTree.java:93-95 | runs `removeChild(int)` as written on the slot the node's own `parentIndex` names. The occupant of that slot is orphaned, `used` drops by one and earlier slots are kept. For a child of this node, that child is the one orphaned. For a node of another parent, a different child goes and the given node keeps its links. When the slot is not the second-to-last, the rest is compacted and the invariant holds. At the second-to-last slot, the last child falls out while it still names this parent, so the invariant is broken |
| ArrayTrees.ArrayTree.SetChild | baum/src/ArrayTree.java:428-440 | the old occupant is orphaned and the slot is overwritten before validation. The verdict is `setParent`'s, except that putting back the current occupant always succeeds. On success the new node is linked at the slot and the invariant holds. On rejection the slot still holds the rejected node unlinked, and that is the one gap left in the invariant |
| ArrayTrees.ReplaceKeepsWfBut | baum/src/ArrayTree.java:431-438 | orphaning the occupant and overwriting its slot keeps the invariant everywhere except that one slot |
| ArrayTrees.ArrayTree.Link | baum/src/ArrayTree.java:439 | `setParent` on a node already written into slot `id`: success closes the gap and restores the full invariant, and rejection changes nothing |
| ArrayTrees.FillKeepsWf | baum/src/ArrayTree.java:439 | linking the node in the exempt slot restores the full invariant |
| ArrayTrees.ArrayTree.SetChildren | baum/src/ArrayTree.java:464-478 | a fresh buffer of one slot per node, then each node is written and linked in turn. The first node the loop rejects ends the call: its slot is written, the nodes before it are linked, later slots are empty, and `used`/`capacity` keep their old values. On success the invariant holds and `used == capacity == number of nodes`. Nodes not yet reached keep their links |
| ArrayTrees.FirstRejected | baum/src/ArrayTree.java:469-474 | the index of the first node the `setChildren` loop rejects, with every node before it accepted |
| ArrayTrees.ArrayTree.LoadAll | baum/src/ArrayTree.java:469-474 | the loop of `setChildren`, with the same outcome and final state |
| ArrayTrees.ArrayTree.Load | baum/src/ArrayTree.java:470-473 | one loop round: the slot is written and `used` covers it, and the node is linked unless `setParent` rejects it |
| ArrayTrees.RebufferKeepsWf | baum/src/ArrayTree.java:467 | replacing the buffer of a childless node by an empty buffer of any size keeps the invariant |
| ArrayTrees.ReserveKeepsWfBut | baum/src/ArrayTree.java:469-470 | writing a node into the next slot and counting it keeps the invariant except at that slot |
| ArrayTrees.ArrayTree.GetChild | baum/src/ArrayTree.java:442-446 | the node in used slot `id`, whose back-link names this node and `id` |
| ArrayTrees.ArrayTree.GetChildren | baum/src/ArrayTree.java:451-459 | a fresh array of exactly the used slots in order, each a child that knows its slot |
| ArrayTrees.ArrayTree.Size | baum/src/ArrayTree.java:185-195 | the count equals the size of the node's shape: itself plus its descendants |
| TreeShape.Size | baum/src/ArrayTree.java:185-195 | a subtree has at least one node more than it has children |
| TreeShape.UniformSize | baum/src/ArrayTree.java:185-195 | a node whose children all have size `k` has size `1 + k * children` |
| ArrayTrees.ArrayTree.Depth | baum/src/ArrayTree.java:200-211 | the number of parent hops is the length of the parent chain, and it is 0 exactly for a root |
| ArrayTrees.ArrayTree.ShallowSearch | baum/src/ArrayTree.java:216-226 | null exactly when no direct child holds the content. Otherwise the result is the lowest-index used child holding it |
| ArrayTrees.ArrayTree.DeepSearch | baum/src/ArrayTree.java:231-246 | the first match in pre-order (the node itself, then slot 0's subtree, slot 1's, ...). Null exactly when no node of the subtree holds the content |
| ArrayTrees.FindCorrect | baum/src/ArrayTree.java:231-246 | the pre-order search answers a node of the subtree holding the content, and answers null exactly when none holds it |
| ArrayTrees.FindFromCorrect | baum/src/ArrayTree.java:235-245 | the search over the slots from `i` on answers a holder below those slots, and answers null exactly when none exists |
| ArrayTrees.ArrayTree.Equals | baum/src/ArrayTree.java:273-297 | true exactly when the other node is non-null and has the same shape: the same content, the same number of used children, and pairwise equal children. Parent links, indices and spare capacity are ignored |
| ArrayTrees.ArrayTree.HashCode | baum/src/ArrayTree.java:300-323 | the hash is a function of the shape alone, so equal trees hash alike |
| ArrayTrees.ArrayTree.ChildHashes | baum/src/ArrayTree.java:304-313 | the array holds each used child's shape hash, in slot order |
| ArrayTrees.ArrayTree.FoldHashes | baum/src/ArrayTree.java:318-320 | folding the hash array gives the shape-level fold `31 * h + x` with 32-bit wrap-around |
| TreeShape.KidsHashClosedForm | baum/src/ArrayTree.java:315-320 | the wrapped step-by-step fold equals the closed form `31^n * seed + sum of 31^(n-1-i) * h_i`, reduced to 32 bits once |
| JavaInts.WrapIsMod | baum/src/ArrayTree.java:319 | Java's `int` wrap-around is reduction modulo 2^32 into `[-2^31, 2^31)`, and it leaves every `int` unchanged |
| JavaInts.WrapMulAdd | baum/src/ArrayTree.java:319 | wrapping after every step gives the same value as wrapping once at the end |
| JavaInts.NatToString | baum/src/ArrayTree.java:340 | the slot index as decimal digits, at least one, with no leading zero |
| JavaInts.NatToStringRoundTrip | baum/src/ArrayTree.java:340 | reading the digits back gives the number |
| ArrayTrees.ArrayTree.ToStringSimple | baum/src/ArrayTree.java:339-371 | the node's line is its summary (`TreeShape.SimpleLine`) of root-ness, index, leaf-ness and content |
| TreeShape.SimpleLineShape | baum/src/ArrayTree.java:340-368 | the line starts with `"[i] "` exactly when the node is not a root, and ends with a line break |
| TreeShape.Abbreviate | baum/src/ArrayTree.java:358-360 | a content text longer than 67 characters becomes its first 63 characters plus `"..."`, and a shorter one is kept, so the result never exceeds 67 characters |
| TreeShape.SimpleLineIsOneLine | baum/src/ArrayTree.java:339-371 | when the content texts contain no line break, the summary holds exactly one line |
| ArrayTrees.ArrayTree.ToString | baum/src/ArrayTree.java:326-334 | the text is the rendering of the node's shape: its line, then each child one level in, the last with the closing connector |
| TreeShape.RenderLines | baum/src/ArrayTree.java:326-334 | a rendering has exactly as many lines as the subtree has nodes |
| ArrayTrees.ArrayTree.ToStringAt | baum/src/ArrayTree.java:380-422 | the text is the rendering of the shape at that depth. Every call reached from `toString()` keeps `strikes < depth`, so each bar written at line 397 falls inside the padding |
| ArrayTrees.ArrayTree.RenderAtHere | baum/src/ArrayTree.java:380-422 | the rendering of the node splits into the pieces the method joins: padding, connector, line, children |
| TreeShape.RenderAtLines | baum/src/ArrayTree.java:380-422 | a rendering at any depth has one line per node |
| TreeShape.RenderKidsLines | baum/src/ArrayTree.java:415-419 | the children's renderings together have one line per node of their subtrees |
| ArrayTrees.ArrayTree.Head | baum/src/ArrayTree.java:389-413 | the node's own part: padding, then `└` for a last child and `├` otherwise, then `─`, then the line |
| ArrayTrees.ArrayTree.Indentation | baum/src/ArrayTree.java:389-400 | `depth` tabs of four blanks, with a bar at the head of tabs 1 to `strikes` |
| TreeShape.PaddingAt | baum/src/ArrayTree.java:389-400 | every character of the padding is a blank, except at the head of tabs 1 to `strikes`, which holds a bar |
| ArrayTrees.ArrayTree.ChildrenText | baum/src/ArrayTree.java:415-419 | the children rendered one after another in slot order, only the last as the last child |
| Trees.Tree.constructor | baum/src/Tree.java:12-14 | no buffer and no children |
| Trees.Tree.WithArray | baum/src/Tree.java:16-29 | the caller's array itself (aliased) becomes the buffer, with `capacity == used == length` and every slot used |
| Trees.Tree.AddChild | baum/src/Tree.java:52-73 | with the growth rule corrected: the node is appended to the used slots and earlier slots are kept. Capacity becomes 1 from 0 and doubles when full. While there is room, the same array is kept and only slot `used` changes. After growth, a fresh array is used whose slots past the new child are `null`, and the old array (which a caller may share) is left unchanged |
| Trees.Tree.AddChildAsWritten | baum/src/Tree.java:52-73 | as written: it throws exactly when the buffer is an empty (zero-length) array. It then leaves `used == 1` over a zero-length buffer, which breaks the node's invariant. Otherwise it appends correctly. When the buffer is full it grows to 1 for a `null` buffer and to twice the capacity otherwise, into a fresh array; when there is room it keeps the same array and capacity and changes only slot `used`. The new array's slots past the new child are `null`, and a replaced old array is left unchanged |
| Trees.Tree.Copied | baum/src/Tree.java:62-67 | the grown buffer is fresh, has the new capacity, starts with the old slots and is empty beyond them |
| Trees.Tree.RemoveChild | baum/src/Tree.java:37-50 | with the order corrected: the requested child is removed, the rest keep their order, and the freed slot is cleared. The spare slots beyond the old `used` are left unchanged |
| Trees.Tree.RemoveChildAsWritten | baum/src/Tree.java:37-50 | as written: `used` drops by one and earlier slots are kept. Only the last index removes the requested child. At the second-to-last index the requested child stays and the last one goes. For an earlier index the last child is lost and a `null` takes the last used slot. The spare slots beyond the old `used` are left unchanged |
| Trees.Tree.ShiftLeft | baum/src/Tree.java:46-48 | slots `from..to-1` take the next slot's value, and every other slot is kept |
| Trees.Tree.SetChild | baum/src/Tree.java:75-79 | exactly slot `id` is overwritten, and `used` and `capacity` are kept |
| Trees.Tree.GetChild | baum/src/Tree.java:81-85 | the child in used slot `id` |
| Trees.Tree.GetChildren | baum/src/Tree.java:87-95 | a fresh array holding exactly the used slots |
| Trees.Tree.SetChildren | baum/src/Tree.java:97-99 | the array is adopted as it is, `used` and `capacity` are kept, and the node stays valid exactly when the array's length is the old capacity |
| Scenario.TestBaumSize | baum/src/Main.java:6-19 | the sample tree has 21 nodes |
| Scenario.CompareCopies | baum/src/Main.java:21-29 | two separately built copies of the sample tree count 21 nodes, compare equal and hash alike. The copies are distinct nodes with disjoint subtrees, as `Main` builds them |

## Left out

- ArrayTrees.ArrayTree: the private `Object[]` buffer is a `seq` field that the methods reassign, not an `array`.
  - Java never hands this buffer out: `getChildren` copies it and `setChildren` copies into a new one. So no aliasing is lost.
  - Growth and the shift loop are written as copy and shift loops over the sequence.
- `Tree` keeps a real `array`, because its buffer is shared with callers.
- `getCapacity`, `getUsed`, `getContent`, `setContent` and `getParent` are plain field reads and writes of the class's fields. They are not separate members.
- `equals` compares against any `Object`, after a `getClass()` check. The model compares with another `ArrayTree` or `null`, so reflection and casts are not modelled.
- `content.hashCode()`, `content.toString()` and `content.getClass().getSimpleName()` are parameters (`hash`, `show`, `typeName`).
  - `Objects.equals` on contents is Dafny equality on `Option<T>`, so `T` must support equality.
  - The one-line result of `SimpleLineIsOneLine` assumes content texts without line breaks.
- ArrayTrees.ArrayTree.SetChildren: modelled only on a node without used children (`used == 0`), which is how the constructors call it.
  - On another node, Java would overwrite the buffer without orphaning the old children, leaving nodes that name this parent but are no longer in its buffer. The invariant cannot describe such nodes.
  - The model sets `capacity` before the loop and restores it on a rejection. Java sets `capacity` and `used` only after the loop, so the values seen by a caller are the same.
- Trees.Tree.WithArray: the array parameter is non-null. Java's `new Tree<>(content, null)` and `new Tree<>((Tree<T>[]) null)` throw `NullPointerException` at `children.length` (Tree.java:20 and Tree.java:27); that error path is not modelled.
- ArrayTrees.ArrayTree.WithChildren: a `null` element in the given array (a `NullPointerException` inside `setParent`) is not modelled. Node sequences hold no `null`.
- TreeShape.Abbreviate: the 67-character limit and the 63-character cut count Dafny characters (Unicode scalar values), while Java's `length()` and `substring` count UTF-16 code units. Content text with characters outside the Basic Multilingual Plane (emoji, for example) is cut at a different point in Java, which can also split a surrogate pair. A Dafny `char` cannot hold half of such a pair.
- ArrayTrees.ArrayTree.ToStringSimple: the summary line inherits `TreeShape.Abbreviate`'s counting in Unicode scalar values instead of UTF-16 code units.
- ArrayTrees.ArrayTree.ToStringSimple: the `"[%d] "` index prefix (ArrayTree.java:340) is rendered by `JavaInts.IntToString` in ASCII digits. `String.format` uses the default locale's digits, so a locale such as Persian gives `[۳] ` instead of `[3] `. Locales are not modelled.
- ArrayTrees.ArrayTree.ToStringAt: only the arguments that `toString()` passes on are modelled: `depth` and `strikes` are `nat`, and `strikes < depth` (or no bars at all). The public `toString(int, int, boolean)` also accepts others, and these are not modelled:
  - negative `depth` or `strikes`, which Java renders with empty loops;
  - `1 <= strikes` with `strikes >= depth`, where Java throws `ArrayIndexOutOfBoundsException` at line 397;
  - a node at depth 0 that is not the last child and has children, which are then rendered with depth 1 and one bar and make Java throw the same way.
- ArrayTrees.ArrayTree.Head and ArrayTrees.ArrayTree.Indentation: the same restriction on `depth` and `strikes` as `ToStringAt`.
- Trees.Tree.AddChild: `capacity * 2` is unbounded. Java's `int` would overflow past 2^30 slots, as in `ArrayTree`.
- ArrayTrees.ArrayTree.AddChild: `capacity * 2` is unbounded. Java's `int` would overflow past 2^30 slots.
- ArrayTrees.ArrayTree.Size: the count is unbounded. Java's `int` would wrap past 2^31 - 1 nodes.
- ArrayTrees.ArrayTree.Depth: the hop count is unbounded. Java's `int` would wrap past 2^31 - 1 levels. The method requires only the storage and up-link half of the invariant (`Linked`).
- Negative indices become `requires` (Java throws `ArrayIndexOutOfBoundsException` there). This applies to `removeChild`, `setChild` and `getChild` of both classes, and to `Tree.setChild`/`getChild`.
- ArrayTrees.ArrayTree.RemoveChildNode: a node whose `parentIndex` is outside `0..used-1` is excluded by `requires`; for an orphan (index -1), Java fails the `assert` or throws.
- Trees.Tree: `addChild`, `removeChild`, `setChild`, `getChild` and `getChildren` require `Valid()`: the used slots lie within a buffer whose length is the capacity. Java's behaviour after a `setChildren` that breaks this (an array of another length) is not modelled beyond `SetChildren`'s own contract, which says when the node stays valid.
- Scenario: the sample tree is stated as a `Shape` that any two nodes may denote. The sequence of `addChild` calls that `testBaum` performs on the heap is not carried out, and the printing in `Main.main` is left out.
- `ToString` renders the children through `toString(int,int,boolean)` with `toStringSimple` as the line of every node below, as in the class itself. A subclass overriding `toStringSimple` is covered by `ToStringAt`'s `line` parameter.

## Findings

| source | as written | input that shows it | evidently intended | confidence | as-written member | corrected member |
|---|---|---|---|---|---|---|
| baum/src/ArrayTree.java:79 | the shift guard `index != used - 1` is read after `used--`, both in `removeChild(int)` and in `removeChild(ArrayTree)`, which calls it (`ArrayTrees.ArrayTree.RemoveChildNode` models that call as written) | a node with two children, `removeChild(0)`: nothing shifts, the orphan stays in slot 0, and the second child is cleared out of slot 1 while it still names this node as parent | shift whenever the removed slot is not the last used one (`index != used` after the decrement) | high (not executed) | ArrayTrees.ArrayTree.RemoveChildAsWritten | ArrayTrees.ArrayTree.RemoveChild |
| baum/src/Tree.java:41 | the last used slot is set to `null` before the shift | a tree with children `[a, b, c]`, `removeChild(0)`: the result is `[b, null]` and `c` is lost | shift first, then clear the freed slot | high (not executed) | Trees.Tree.RemoveChildAsWritten | Trees.Tree.RemoveChild |
| baum/src/Tree.java:60 | the new capacity is 1 only when the buffer is `null` | `new Tree<>(content, new Tree[0])` then `addChild(x)`: capacity `0 * 2 == 0`, and the write at line 72 is out of bounds | a capacity of 1 for an empty buffer too, as `ArrayTree.java:108` does | high (not executed) | Trees.Tree.AddChildAsWritten | Trees.Tree.AddChild |
