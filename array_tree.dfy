/**
 * The mutable n-ary tree node of the Java class `ArrayTree<T>`: a content value,
 * a hand-grown child buffer (`children`, `capacity`, `used`) and a back-link to
 * the parent together with the node's slot in the parent's buffer.
 *
 * Every node of a forest lives in a ghost universe `U`; `Wf(U)` is the invariant
 * the operations keep. The ghost field `ancestors` lists the parent chain; its
 * length strictly grows from parent to child, which is what rules out cycles and
 * what the recursive operations use as their termination measure.
 */
module ArrayTrees {
  import opened Wrappers
  import opened JavaInts
  import opened TreeShape

  /** The three reasons `setParent` rejects an attachment, in the order it checks them. */
  datatype AttachError = AlreadyAttached | SelfAttachment | CycleDetected

  /** A Java call that either returns normally or throws `IllegalArgumentException`. */
  datatype Outcome = Pass | Fail(error: AttachError)

  class ArrayTree<T(==)> {
    var parent: ArrayTree?<T>
    var parentIndex: int
    /**
     * The child buffer (Java's `Object[] children`); `capacity` is its length and
     * slots `used..` are spare. The buffer is private and never handed out, so it
     * is kept as a value; a missing buffer is the empty one.
     */
    var children: seq<ArrayTree?<T>>
    var capacity: int
    var used: int
    var content: Option<T>
    /** The parent chain: `[parent, grandparent, ..., root]`, empty for an orphan. */
    ghost var ancestors: seq<ArrayTree<T>>

    /** `new ArrayTree<>(content)` and `new ArrayTree<>()`: an orphan leaf without a child buffer. */
    constructor (content: Option<T>)
      ensures this.content == content && parent == null && parentIndex == -1
      ensures children == [] && capacity == 0 && used == 0 && ancestors == []
    {
      this.content := content;
      parent := null;
      parentIndex := -1;
      children := [];
      capacity := 0;
      used := 0;
      ancestors := [];
    }

    /**
     * `new ArrayTree<>(content, children...)`, and `new ArrayTree<>(children...)`
     * without content: a fresh orphan that takes the given nodes through
     * `setChildren`. Nothing can sit below a fresh node, so only a node that is
     * taken (or given twice) can be rejected.
     */
    static method WithChildren(content: Option<T>, kids: seq<ArrayTree<T>>, ghost U: set<ArrayTree<T>>)
      returns (t: ArrayTree<T>, o: Outcome)
      requires Wf(U) && forall i | 0 <= i < |kids| :: kids[i] in U
      modifies U`parent, U`parentIndex, U`ancestors
      ensures fresh(t) && t.content == content && t.parent == null && t.parentIndex == -1
      ensures var n := old(FirstTaken(kids, 0, U));
              && o == (if n == |kids| then Pass else Fail(AlreadyAttached))
              && |t.children| == |kids|
              && (forall j | 0 <= j < n :: t.children[j] == kids[j] && kids[j].parent == t && kids[j].parentIndex == j)
      ensures var n := old(FirstTaken(kids, 0, U));
              forall x | x in U && x !in kids[..n] :: x.parent == old(x.parent) && x.parentIndex == old(x.parentIndex)
      ensures o.Pass? ==> Wf(U + {t}) && t.used == t.capacity == |kids|
      ensures o.Fail? ==> t.used == 0 && t.capacity == 0
    {
      t := new ArrayTree(content);
      FreshKeepsWf(U, t);
      FreshVerdicts(t, kids, 0, U);
      o := t.SetChildren(kids, U + {t});
    }

    predicate IsOrphan()
      reads this
    {
      parent == null
    }

    predicate IsRoot()
      reads this
    {
      parent == null
    }

    predicate IsLeaf()
      reads this
    {
      used == 0
    }

    predicate IsInner()
      reads this
    {
      !(IsRoot() || IsLeaf())
    }

    predicate IsEmpty()
      reads this
    {
      used == 0
    }

    /**
     * The node kinds on a well-formed forest: root and orphan are one notion and
     * mean an empty parent chain; leaf and empty mean no child shapes; inner means
     * neither root nor leaf.
     */
    lemma Kinds(U: set<ArrayTree<T>>)
      requires Wf(U) && this in U
      ensures IsRoot() == IsOrphan() && (IsRoot() <==> ancestors == [])
      ensures IsLeaf() == IsEmpty() && (IsLeaf() <==> ShapeOf(this, U).kids == [])
      ensures IsInner() <==> ancestors != [] && ShapeOf(this, U).kids != []
    {
      assert Member(this, U) && UpOk(this, U);
    }

    /**
     * `addChild`: `setParent` first, so a rejected child leaves every node as it
     * was; otherwise the child takes slot `used`, growing the buffer to one slot
     * (from none) or to twice its size when it is full.
     */
    method AddChild(t: ArrayTree<T>, ghost U: set<ArrayTree<T>>) returns (o: Outcome)
      requires Wf(U) && this in U && t in U
      modifies this, t`parent, t`parentIndex, Sub(t, U)`ancestors
      ensures Wf(U)
      ensures o == old(AttachVerdict(t, this, U))
      ensures o.Fail? ==> unchanged(U)
      ensures o.Pass? ==> t.parent == this && t.parentIndex == old(used)
      ensures o.Pass? ==> used == old(used) + 1 && children[old(used)] == t
      ensures o.Pass? ==> children[..old(used)] == old(children[..used])
      ensures o.Pass? ==>
                capacity == if old(used) < old(capacity) then old(capacity) else if old(capacity) == 0 then 1 else 2 * old(capacity)
      ensures content == old(content) && parent == old(parent) && parentIndex == old(parentIndex)
    {
      var newId := used;
      o := SetParent(t, this, newId, U, null, 0);
      if o.Fail? {
        return;
      }
      Append(t);
      AttachKeepsWf(U, this, t);
    }

    /** The storage half of `addChild`: one more used slot, holding `t`, after growing a full buffer. */
    method Append(t: ArrayTree<T>)
      requires 0 <= used <= capacity == |children|
      modifies this`used, this`children, this`capacity
      ensures used == old(used) + 1 && used <= capacity == |children|
      ensures children[..old(used)] == old(children[..used]) && children[old(used)] == t
      ensures capacity == if old(used) < old(capacity) then old(capacity) else if old(capacity) == 0 then 1 else 2 * old(capacity)
    {
      var newId := used;
      used := used + 1;
      if used > capacity {
        var newCapacity := if children == [] || capacity == 0 then 1 else capacity * 2;
        children := Grown(children, capacity, newCapacity);
        capacity := newCapacity;
      }
      children := children[newId := t];
    }

    /** The copy loop of `addChild`: a new buffer of `newCapacity` slots starting with the old `capacity` slots. */
    static method Grown(children: seq<ArrayTree?<T>>, capacity: int, newCapacity: int) returns (r: seq<ArrayTree?<T>>)
      requires 0 <= capacity <= |children| && capacity <= newCapacity
      ensures |r| == newCapacity && r[..capacity] == children[..capacity]
      ensures forall i | capacity <= i < newCapacity :: r[i] == null
    {
      var buffer := new ArrayTree?<T>[newCapacity](_ => null);
      for i := 0 to capacity
        invariant buffer[..i] == children[..i]
        invariant forall j | capacity <= j < newCapacity :: buffer[j] == null
      {
        buffer[i] := children[i];
      }
      r := buffer[..];
    }

    /**
     * `removeChild(int)` with the shift guard evidently intended: the child in slot
     * `index` is orphaned, the later children move one slot to the left and learn
     * their new slot, and the freed last slot is cleared.
     */
    method RemoveChild(index: int, ghost U: set<ArrayTree<T>>)
      requires Wf(U) && this in U && 0 <= index < used
      modifies this`used, this`children, Slots(index, used)`parentIndex, Slots(index, index + 1)`parent, Below(index, U)`ancestors
      ensures Wf(U)
      ensures old(children[index]) != null && old(children[index]).parent == null && old(children[index]).parentIndex == -1
      ensures used == old(used) - 1 && capacity == old(capacity) && children[used] == null
      ensures children[..used] == old(children[..index] + children[index + 1..used])
      ensures forall j | 0 <= j < used :: children[j] != null && children[j].parentIndex == j
    {
      RemovalFacts(index, U);
      Unlink(index, U);
      DetachKeepsWf(U, this, old(children[index]), index);
      assert Member(this, U) && DownOk(this, U, null, 0);
    }

    /**
     * `removeChild(int)` as written: the shift guard `index != used - 1` is read
     * after `used` has dropped, so removing the second-to-last child shifts nothing.
     * The orphan then stays in its slot, and the last child falls out of the used
     * slots while it still names this node as its parent.
     */
    method RemoveChildAsWritten(index: int, ghost U: set<ArrayTree<T>>)
      requires Wf(U) && this in U && 0 <= index < used
      modifies this`used, this`children, Slots(index, used)`parentIndex, Slots(index, index + 1)`parent, Below(index, U)`ancestors
      ensures old(children[index]) != null && old(children[index]).parent == null && old(children[index]).parentIndex == -1
      ensures used == old(used) - 1 && |children| == capacity == old(capacity) && children[used] == null
      ensures children[..index] == old(children[..index])
      ensures index != old(used) - 2 ==> Wf(U) && children[..used] == old(children[..index] + children[index + 1..used])
      ensures index == old(used) - 2 ==>
                && children[index] == old(children[index])
                && old(children[index + 1]) != null
                && old(children[index + 1]).parent == this && old(children[index + 1]).parentIndex == used
                && !Wf(U)
    {
      RemovalFacts(index, U);
      UnlinkAsWritten(index, U);
      if index != old(used) - 2 {
        DetachKeepsWf(U, this, old(children[index]), index);
      } else {
        ghost var dropped := old(children[index + 1]);
        assert !UpOk(dropped, U);
      }
    }

    /** The body of `removeChild(int)`, with the shift guard evidently intended. */
    method Unlink(index: int, ghost U: set<ArrayTree<T>>)
      requires RemovableAt(index, U)
      modifies this`used, this`children, Slots(index, used)`parentIndex, Slots(index, index + 1)`parent, Below(index, U)`ancestors
      ensures DetachedCore(U, this, old(children[index]), index)
    {
      var removed := children[index];
      Orphan(removed, U);
      Compact(index, U);
    }

    /** The body of `removeChild(int)` as written, with the guard read after the decrement. */
    method UnlinkAsWritten(index: int, ghost U: set<ArrayTree<T>>)
      requires RemovableAt(index, U)
      modifies this`used, this`children, Slots(index, used)`parentIndex, Slots(index, index + 1)`parent, Below(index, U)`ancestors
      ensures index != old(used) - 2 ==> DetachedCore(U, this, old(children[index]), index)
      ensures old(children[index]).parent == null && old(children[index]).parentIndex == -1
      ensures used == old(used) - 1 && |children| == capacity == old(capacity) && children[used] == null
      ensures children[..index] == old(children[..index])
      ensures index == old(used) - 2 ==>
                children[index] == old(children[index]) && old(children[index + 1]).parent == this
                && old(children[index + 1]).parentIndex == index + 1 && old(children[index + 1]) in U
    {
      var removed := children[index];
      Orphan(removed, U);
      CompactAsWritten(index, U);
    }

    /**
     * The compaction of `removeChild` with the guard evidently intended: one slot
     * fewer, the later children one slot to the left and renumbered, the freed
     * slot cleared.
     */
    method Compact(index: int, ghost U: set<ArrayTree<T>>)
      requires 0 <= index < used <= |children|
      requires forall j | index < j < used :: children[j] != null && children[j] in U && children[j].parentIndex == j
      modifies this`used, this`children, Slots(index + 1, used)`parentIndex
      ensures used == old(used) - 1 && |children| == old(|children|)
      ensures children[..used] == old(children[..index] + children[index + 1..used]) && children[used] == null
      ensures forall j | index <= j < used :: children[j] != null && children[j] in U && children[j].parentIndex == j
      ensures forall x | x in U && x !in old(children[index + 1..used]) :: x.parentIndex == old(x.parentIndex)
    {
      used := used - 1;
      if index != used {
        ShiftLeft(index, U);
      }
      children := children[used := null];
    }

    /**
     * The compaction of `removeChild` as written: the guard compares with
     * `used - 1` after the decrement, so removing the second-to-last child skips
     * the shift.
     */
    method CompactAsWritten(index: int, ghost U: set<ArrayTree<T>>)
      requires 0 <= index < used <= |children|
      requires forall j | index < j < used :: children[j] != null && children[j] in U && children[j].parentIndex == j
      modifies this`used, this`children, Slots(index + 1, used)`parentIndex
      ensures used == old(used) - 1 && |children| == old(|children|) && children[used] == null
      ensures children[..index] == old(children[..index])
      ensures index != old(used) - 2 ==>
                && children[..used] == old(children[..index] + children[index + 1..used])
                && (forall j | index <= j < used :: children[j] != null && children[j] in U && children[j].parentIndex == j)
                && (forall x | x in U && x !in old(children[index + 1..used]) :: x.parentIndex == old(x.parentIndex))
      ensures index == old(used) - 2 ==>
                children[index] == old(children[index]) && forall x | x in U :: x.parentIndex == old(x.parentIndex)
    {
      used := used - 1;
      if index != used - 1 {
        ShiftLeft(index, U);
      }
      children := children[used := null];
    }

    /**
     * What `removeChild` relies on, in the state before it changes anything:
     * slot `index` holds a child `r` of this node, this node lies outside `r`'s
     * subtree and is none of its own children, the later slots hold children that
     * know their slot, and `r`'s chain ends every chain in `r`'s subtree.
     */
    ghost predicate RemovableAt(index: int, U: set<ArrayTree<T>>)
      reads this, U
    {
      && this in U && 0 <= index < used <= capacity == |children|
      && children[index] != null && children[index] in U && children[index] != this
      && this !in Sub(children[index], U) && this !in Slots(index, used)
      && (forall j | index < j < used ::
            && children[j] != null && children[j] in U && children[j].parent == this && children[j].parentIndex == j
            && children[j] != children[index])
      && ChainTail(children[index], U)
    }

    /** `removeChild`'s preconditions give what its body relies on. */
    lemma RemovalFacts(index: int, U: set<ArrayTree<T>>)
      requires Wf(U) && this in U && 0 <= index < used
      ensures RemovableAt(index, U)
    {
      SubOfSlot(U, null, 0, this, index);
      var r := children[index];
      assert Member(r, U) && UpOk(r, U);
      AncestorIsHigher(U, r, this);
      assert Member(this, U) && DownOk(this, U, null, 0);
      forall j | index <= j < used
        ensures children[j] != this
      {
        var c := children[j];
        assert Member(c, U) && UpOk(c, U);
        AncestorIsHigher(U, c, this);
      }
      ChainTailHolds(U, r);
    }

    /** The nodes in slots `from..to-1`. */
    ghost function Slots(from: int, to: int): set<ArrayTree<T>>
      reads this
    {
      set j | from <= j < to && 0 <= j < |children| && children[j] != null :: children[j]
    }

    /** The subtree of the node in slot `i`, if any. */
    ghost function Below(i: int, U: set<ArrayTree<T>>): set<ArrayTree<T>>
      reads this, U
    {
      if 0 <= i < |children| && children[i] != null && children[i] in U then Sub(children[i], U) else {}
    }

    /**
     * The detaching half of `removeChild`: the removed child forgets its parent
     * and slot, and its subtree drops the old parent's chain from its ancestors.
     */
    static method Orphan(removed: ArrayTree<T>, ghost U: set<ArrayTree<T>>)
      requires removed in U && ChainTail(removed, U)
      modifies removed`parentIndex, removed`parent, Sub(removed, U)`ancestors
      ensures removed.parent == null && removed.parentIndex == -1
      ensures forall y | y in U ::
                if y in old(Sub(removed, U)) then old(y.ancestors) == y.ancestors + old(removed.ancestors)
                else y.ancestors == old(y.ancestors)
    {
      ghost var below := Sub(removed, U);
      ghost var cut := |removed.ancestors|;
      removed.parentIndex := -1;
      removed.parent := null;
      forall y | y in below {
        y.ancestors := y.ancestors[..|y.ancestors| - cut];
      }
    }

    /**
     * The shift loop of `removeChild`: slots `index..used-1` take the node of the
     * next slot, which learns its new slot number. Slot `used` is left as it was.
     */
    method ShiftLeft(index: int, ghost U: set<ArrayTree<T>>)
      requires 0 <= index <= used < |children|
      requires forall j | index < j <= used :: children[j] != null && children[j].parentIndex == j
      modifies this`children, Slots(index + 1, used + 1)`parentIndex
      ensures |children| == old(|children|) && children[..index] == old(children[..index])
      ensures children[index..used] == old(children[index + 1..used + 1]) && children[used..] == old(children[used..])
      ensures forall j | index <= j < used :: children[j] == old(children[j + 1])
      ensures forall j | index <= j < used :: children[j] != null && children[j].parentIndex == j
      ensures forall x | x in U && x !in old(children[index + 1..used + 1]) :: x.parentIndex == old(x.parentIndex)
    {
      for i := index to used
        invariant |children| == old(|children|) && children[..index] == old(children[..index])
        invariant forall j | index <= j < i :: children[j] == old(children[j + 1])
        invariant forall j | i <= j < |children| :: children[j] == old(children[j])
        invariant forall j | index <= j < i :: children[j] != null && children[j].parentIndex == j
        invariant forall j | i < j <= used :: children[j] != null && children[j].parentIndex == j
      {
        children := children[i := children[i + 1]];
        children[i].parentIndex := i;
      }
    }

    /**
     * `setParent`: the three rejections, in the order the Java code checks them,
     * and otherwise the link from `tree` up to `parentTree` at `index`. Nothing
     * changes on a rejection. Reached from `setChild` with the slot being replaced
     * exempt from the invariant; the search for a cycle then starts below that slot.
     */
    static method SetParent(tree: ArrayTree<T>, parentTree: ArrayTree<T>, index: int, ghost U: set<ArrayTree<T>>,
                            ghost hole: ArrayTree?<T>, ghost k: int) returns (o: Outcome)
      requires WfBut(U, hole, k) && tree in U && parentTree in U && (hole != null ==> parentTree == hole)
      modifies tree`parent, tree`parentIndex, Sub(tree, U)`ancestors
      ensures o == old(AttachVerdict(tree, parentTree, U))
      ensures o.Fail? ==> tree.parent == old(tree.parent) && tree.parentIndex == old(tree.parentIndex)
      ensures o.Fail? ==> forall y | y in old(Sub(tree, U)) :: y.ancestors == old(y.ancestors)
      ensures o.Pass? ==> tree.parent == parentTree && tree.parentIndex == index
      ensures o.Pass? ==>
                forall y | y in old(Sub(tree, U)) :: y.ancestors == old(y.ancestors) + ([parentTree] + old(parentTree.ancestors))
    {
      if !tree.IsOrphan() {
        return Fail(AlreadyAttached);
      }
      if tree == parentTree {
        return Fail(SelfAttachment);
      }
      var cycle := tree.Contains(parentTree, U, hole, k);
      if cycle {
        return Fail(CycleDetected);
      }
      tree.parent := parentTree;
      tree.parentIndex := index;
      ghost var moved := Sub(tree, U);
      ghost var above := [parentTree] + parentTree.ancestors;
      forall y | y in moved {
        y.ancestors := y.ancestors + above;
      }
      return Pass;
    }

    /**
     * `setChild`: the occupant of slot `id` is orphaned and the slot overwritten
     * before `setParent` validates the new node, so a rejected node is left in the
     * slot unlinked (the one gap `WfBut` allows). Putting back the node the slot
     * already holds re-links it.
     */
    method SetChild(id: int, t: ArrayTree<T>, ghost U: set<ArrayTree<T>>) returns (o: Outcome)
      requires Wf(U) && this in U && t in U && 0 <= id < used
      modifies this`children, Slots(id, id + 1)`parent, Slots(id, id + 1)`parentIndex, Below(id, U)`ancestors
      modifies t`parent, t`parentIndex, Sub(t, U)`ancestors
      ensures o == old(ReplaceVerdict(this, id, t, U))
      ensures children == old(children)[id := t] && used == old(used) && capacity == old(capacity)
      ensures content == old(content) && parent == old(parent) && parentIndex == old(parentIndex)
      ensures old(children[id]) != null
      ensures old(children[id]) != t ==> old(children[id]).parent == null && old(children[id]).parentIndex == -1
      ensures o.Pass? ==> Wf(U) && t.parent == this && t.parentIndex == id
      ensures o.Fail? ==> WfBut(U, this, id) && t.parent == old(t.parent) && t.parentIndex == old(t.parentIndex)
    {
      RemovalFacts(id, U);
      ghost var r := children[id];
      if children[id] != null {
        var removedChild := children[id];
        Orphan(removedChild, U);
      }
      children := children[id := t];
      ReplaceKeepsWfBut(U, this, r, t, id);
      forall x | x in Sub(t, U)
        ensures x in old(Sub(t, U))
      {
        if x in old(Sub(r, U)) {
          assert old(x.ancestors) == x.ancestors + old(r.ancestors);
        }
      }
      o := Link(t, id, U);
    }

    /**
     * The `setParent` call of `setChild` and of the `setChildren` loop: slot `id`
     * already holds `t`, which is linked to it unless `setParent` rejects it.
     */
    method Link(t: ArrayTree<T>, id: int, ghost U: set<ArrayTree<T>>) returns (o: Outcome)
      requires WfBut(U, this, id) && this in U && t in U && 0 <= id < used && id < |children| && children[id] == t
      modifies t`parent, t`parentIndex, Sub(t, U)`ancestors
      ensures o == old(AttachVerdict(t, this, U))
      ensures o.Pass? ==> Wf(U) && t.parent == this && t.parentIndex == id
      ensures o.Pass? ==> forall y | y in U && y !in old(Sub(t, U)) :: y.ancestors == old(y.ancestors)
      ensures o.Fail? ==> WfBut(U, this, id) && unchanged(U)
    {
      o := SetParent(t, this, id, U, this, id);
      if o.Pass? {
        assert Member(this, U);
        FillKeepsWf(U, this, t, id);
      }
    }

    /**
     * `setChildren` on a node without children, as the constructors call it: a
     * fresh buffer of one slot per given node, then for each node in turn its slot
     * is written and `setParent` links it. The first rejected node ends the call
     * with its slot already written and the nodes before it linked, while `used`
     * and `capacity` keep their old values.
     */
    method SetChildren(kids: seq<ArrayTree<T>>, ghost U: set<ArrayTree<T>>) returns (o: Outcome)
      requires Wf(U) && this in U && used == 0 && forall i | 0 <= i < |kids| :: kids[i] in U
      modifies this`children, this`capacity, this`used, U`parent, U`parentIndex, U`ancestors
      ensures var n := old(FirstRejected(this, kids, 0, U));
              o == if n == |kids| then Pass else old(KidVerdict(this, kids, n, U))
      ensures var n := old(FirstRejected(this, kids, 0, U));
              && |children| == |kids|
              && forall j | 0 <= j < n :: children[j] == kids[j] && kids[j].parent == this && kids[j].parentIndex == j
      ensures var n := old(FirstRejected(this, kids, 0, U));
              forall x | x in U && x !in kids[..n] :: x.parent == old(x.parent) && x.parentIndex == old(x.parentIndex)
      ensures o.Pass? ==> Wf(U) && used == capacity == |children| == |kids|
      ensures o.Fail? ==> var n := old(FirstRejected(this, kids, 0, U));
                          && |children| == |kids| && children[n] == kids[n]
                          && (forall j | n < j < |kids| :: children[j] == null)
                          && used == old(used) && capacity == old(capacity)
      ensures content == old(content) && parent == old(parent) && parentIndex == old(parentIndex)
    {
      var oldCapacity := capacity;
      children, capacity := seq(|kids|, _ => null), |kids|;
      RebufferKeepsWf(U, this);
      o := LoadAll(kids, U);
      if o.Fail? {
        used, capacity := 0, oldCapacity;
      }
    }

    /** The copy loop of `setChildren`, into a fresh buffer of one empty slot per node. */
    method LoadAll(kids: seq<ArrayTree<T>>, ghost U: set<ArrayTree<T>>) returns (o: Outcome)
      requires Wf(U) && this in U && used == 0 && capacity == |kids| == |children|
      requires forall j | 0 <= j < |kids| :: kids[j] in U && children[j] == null
      modifies this`children, this`used, U`parent, U`parentIndex, U`ancestors
      ensures var n := old(FirstRejected(this, kids, 0, U));
              o == if n == |kids| then Pass else old(KidVerdict(this, kids, n, U))
      ensures var n := old(FirstRejected(this, kids, 0, U));
              && |children| == |kids|
              && (forall j | 0 <= j < n :: children[j] == kids[j] && kids[j].parent == this && kids[j].parentIndex == j)
              && (forall x | x in U && x !in kids[..n] :: x.parent == old(x.parent) && x.parentIndex == old(x.parentIndex))
              && (o.Pass? ==> Wf(U) && used == |kids|)
              && (o.Fail? ==> children[n] == kids[n] && forall j | n < j < |kids| :: children[j] == null)
      ensures parent == old(parent) && parentIndex == old(parentIndex)
    {
      var i := 0;
      while i < |kids|
        invariant 0 <= i <= |kids| && Wf(U) && used == i && capacity == |kids| == |children|
        invariant forall j | 0 <= j < i :: children[j] == kids[j] && kids[j].parent == this && kids[j].parentIndex == j
        invariant forall j | i <= j < |kids| :: children[j] == null
        invariant forall x | x in U && x !in kids[..i] :: x.parent == old(x.parent) && x.parentIndex == old(x.parentIndex)
        invariant parent == old(parent) && parentIndex == old(parentIndex) && ancestors == old(ancestors)
        invariant forall j | 0 <= j < i :: old(KidVerdict(this, kids, j, U)).Pass?
      {
        var child := kids[i];
        ghost var verdict := old(KidVerdict(this, kids, i, U));
        assert AttachVerdict(child, this, U) == verdict by {
          if child in kids[..i] {
            var j :| 0 <= j < i && kids[j] == child;
          } else {
            assert child.parent == old(child.parent);
            assert this in Sub(child, U) <==> this in old(Sub(child, U));
          }
        }
        o := Load(i, child, U);
        if o.Fail? {
          assert old(FirstRejected(this, kids, 0, U)) == i;
          return;
        }
        i := i + 1;
      }
      o := Pass;
    }

    /** One round of the `setChildren` loop: slot `i` takes `kid`, which `setParent` then links. */
    method Load(i: int, kid: ArrayTree<T>, ghost U: set<ArrayTree<T>>) returns (o: Outcome)
      requires Wf(U) && this in U && kid in U && i == used < capacity == |children|
      modifies this`children, this`used, kid`parent, kid`parentIndex, Sub(kid, U)`ancestors
      ensures o == old(AttachVerdict(kid, this, U))
      ensures children == old(children)[i := kid] && used == i + 1 && capacity == old(capacity)
      ensures parent == old(parent) && parentIndex == old(parentIndex) && ancestors == old(ancestors)
      ensures forall x | x in U && x != kid :: x.parent == old(x.parent) && x.parentIndex == old(x.parentIndex)
      ensures o.Pass? ==> Wf(U) && kid.parent == this && kid.parentIndex == i
      ensures o.Fail? ==> kid.parent == old(kid.parent) && kid.parentIndex == old(kid.parentIndex)
    {
      children := children[i := kid];
      used := i + 1;
      ReserveKeepsWfBut(U, this, i);
      o := Link(kid, i, U);
    }

    /**
     * `removeChild(ArrayTree)`: runs `removeChild(int)` as written on the slot named
     * by the node's own `parentIndex`, without checking that the node is a child of
     * this one; for a node of another parent, a different child goes. When that slot
     * is the second-to-last one, the as-written guard skips the shift and breaks the
     * invariant.
     */
    method RemoveChildNode(t: ArrayTree<T>, ghost U: set<ArrayTree<T>>)
      requires Wf(U) && this in U && t in U && 0 <= t.parentIndex < used
      modifies this`used, this`children, Slots(t.parentIndex, used)`parentIndex
      modifies Slots(t.parentIndex, t.parentIndex + 1)`parent, Below(t.parentIndex, U)`ancestors
      ensures var k := old(t.parentIndex);
              && old(children[k]) != null && old(children[k]).parent == null && old(children[k]).parentIndex == -1
              && used == old(used) - 1 && used < |children| == capacity == old(capacity) && k <= used
              && children[..k] == old(children[..k])
      ensures var k := old(t.parentIndex);
              k != old(used) - 2 ==> Wf(U) && children[..used] == old(children[..k] + children[k + 1..used])
      ensures var k := old(t.parentIndex);
              k == old(used) - 2 ==>
                && children[k] == old(children[k])
                && old(children[k + 1]) != null
                && old(children[k + 1]).parent == this && old(children[k + 1]).parentIndex == used
                && !Wf(U)
      ensures old(t.parent) == this ==> t.parent == null && t.parentIndex == -1
      ensures old(t.parent) != this ==> t.parent == old(t.parent)
      ensures old(t.parent) != this ==> t.parentIndex == old(t.parentIndex)
    {
      assert Member(this, U) && DownOk(this, U, null, 0);
      assert forall j | t.parentIndex <= j < used :: children[j].parent == this;
      assert Member(t, U) && UpOk(t, U);
      RemoveChildAsWritten(t.parentIndex, U);
    }

    /** `getChild`: the node in used slot `id`, whose back-link names this node and `id`. */
    method GetChild(id: int, ghost U: set<ArrayTree<T>>) returns (c: ArrayTree<T>)
      requires Wf(U) && this in U && 0 <= id < used
      ensures id < |children| && c == children[id]
      ensures c in U && c.parent == this && c.parentIndex == id
    {
      SubOfSlot(U, null, 0, this, id);
      c := children[id];
    }

    /** `getChildren`: a fresh array holding exactly the used slots, in order. */
    method GetChildren(ghost U: set<ArrayTree<T>>) returns (a: array<ArrayTree?<T>>)
      requires Wf(U) && this in U
      ensures fresh(a) && a[..] == children[..used]
      ensures forall i | 0 <= i < a.Length :: a[i] != null && a[i].parent == this && a[i].parentIndex == i
    {
      assert DownOk(this, U, null, 0);
      a := new ArrayTree?<T>[used];
      for i := 0 to used
        invariant forall j | 0 <= j < i :: a[j] == children[j]
      {
        a[i] := children[i];
      }
    }

    /** `size`: the number of nodes of the subtree, counted child by child. */
    method Size(ghost U: set<ArrayTree<T>>) returns (size: int)
      requires Wf(U) && this in U
      ensures size == TreeShape.Size(ShapeOf(this, U))
      decreases Sub(this, U)
    {
      size := 1;
      ghost var ks := KidShapes(this, used, U);
      for i := 0 to used
        invariant size == 1 + KidsSize(ks, i)
      {
        KidShapeAt(U, this, used, i);
        SubOfSlot(U, null, 0, this, i);
        var s := children[i].Size(U);
        size := size + s;
      }
    }

    /** `depth`: the number of parent hops up to the root. */
    method Depth(ghost U: set<ArrayTree<T>>) returns (d: int)
      requires Linked(U) && this in U
      ensures d == |ancestors|
      ensures d == 0 <==> IsRoot()
    {
      d := 0;
      var current := this;
      assert StorageOk(current) && UpOk(current, U);
      while !current.IsRoot()
        invariant current in U && StorageOk(current) && UpOk(current, U)
        invariant d + |current.ancestors| == |ancestors|
        invariant d == 0 <==> current == this
        decreases |current.ancestors|
      {
        d := d + 1;
        current := current.parent;
        assert StorageOk(current) && UpOk(current, U);
      }
    }

    /** `shallowSearch`: the first used slot whose content equals `v`, or null. */
    method ShallowSearch(v: Option<T>, ghost U: set<ArrayTree<T>>) returns (r: ArrayTree?<T>)
      requires Wf(U) && this in U
      ensures r == null <==> forall i | 0 <= i < used :: KidShapes(this, used, U)[i].content != v
      ensures r != null ==>
                && r in U && r.parent == this && r.content == v
                && 0 <= r.parentIndex < used && children[r.parentIndex] == r
                && forall i | 0 <= i < r.parentIndex :: KidShapes(this, used, U)[i].content != v
    {
      assert DownOk(this, U, null, 0);
      for i := 0 to used
        invariant forall j | 0 <= j < i :: KidShapes(this, used, U)[j].content != v
      {
        KidShapeAt(U, this, used, i);
        var child := children[i];
        if child.content == v {
          return child;
        }
      }
      return null;
    }

    /** `deepSearch`: the first node in pre-order whose content equals `v`, or null. */
    method DeepSearch(v: Option<T>, ghost U: set<ArrayTree<T>>) returns (r: ArrayTree?<T>)
      requires Wf(U) && this in U
      ensures r == Find(this, v, U)
      ensures r != null ==> r in Sub(this, U) && r.content == v
      ensures r == null <==> forall x | x in Sub(this, U) :: x.content != v
      decreases Sub(this, U)
    {
      FindCorrect(U, this, v);
      if v == content {
        return this;
      }
      for i := 0 to used
        invariant FindFrom(this, v, i, U) == Find(this, v, U)
      {
        SubOfSlot(U, null, 0, this, i);
        var found := children[i].DeepSearch(v, U);
        if found != null {
          return found;
        }
      }
      return null;
    }

    /**
     * `contains`: whether `target` is this node or lies below it. It also runs while
     * one slot is being replaced (the slot `setChild` has just written), provided the
     * node searched for is the one owning that slot.
     */
    method Contains(target: ArrayTree<T>, ghost U: set<ArrayTree<T>>, ghost hole: ArrayTree?<T>, ghost k: int)
      returns (b: bool)
      requires WfBut(U, hole, k) && this in U && (hole != null ==> target == hole)
      ensures b <==> target in Sub(this, U)
      decreases Sub(this, U)
    {
      if target == this {
        return true;
      }
      for i := 0 to used
        invariant forall j | 0 <= j < i :: j < |children| && children[j] != null && target !in Sub(children[j], U)
      {
        SubOfSlot(U, hole, k, this, i);
        var found := children[i].Contains(target, U, hole, k);
        if found {
          return true;
        }
      }
      if target in Sub(this, U) {
        var j := SubSplit(U, this, target);
        assert false;
      }
      return false;
    }

    /** `equals`: same content, same number of used slots, and pairwise equal children. */
    method Equals(other: ArrayTree?<T>, ghost U: set<ArrayTree<T>>) returns (eq: bool)
      requires Wf(U) && this in U && (other != null ==> other in U)
      ensures eq <==> other != null && ShapeOf(this, U) == ShapeOf(other, U)
      decreases Sub(this, U)
    {
      if this == other {
        return true;
      }
      if other == null {
        return false;
      }
      if content != other.content {
        return false;
      }
      if used != other.used {
        assert |ShapeOf(this, U).kids| != |ShapeOf(other, U).kids|;
        return false;
      }
      ghost var mine := KidShapes(this, used, U);
      ghost var theirs := KidShapes(other, used, U);
      for i := 0 to used
        invariant mine[..i] == theirs[..i]
      {
        KidShapeAt(U, this, used, i);
        KidShapeAt(U, other, used, i);
        SubOfSlot(U, null, 0, this, i);
        var e := children[i].Equals(other.children[i], U);
        if !e {
          assert mine[i] != theirs[i];
          return false;
        }
        assert mine[..i + 1] == mine[..i] + [mine[i]];
        assert theirs[..i + 1] == theirs[..i] + [theirs[i]];
      }
      assert mine == mine[..used] && theirs == theirs[..used];
      return true;
    }

    /**
     * `hashCode`: the content's hash (1 for null) folded with the children's hashes
     * by `31 * h + x` in 32-bit arithmetic.
     */
    method HashCode(hash: T -> i32, ghost U: set<ArrayTree<T>>) returns (h: i32)
      requires Wf(U) && this in U
      ensures h == HashOf(ShapeOf(this, U), hash)
      decreases Sub(this, U), 1
    {
      h := if content.None? then 1 else hash(content.value);
      var hashes := ChildHashes(hash, U);
      h := FoldHashes(h, hashes, KidShapes(this, used, U), hash);
    }

    static method FoldHashes(seed: i32, hashes: array<i32>, ghost ks: seq<Shape<T>>, hash: T -> i32) returns (h: i32)
      requires hashes.Length == |ks|
      requires forall j | 0 <= j < |ks| :: hashes[j] == HashOf(ks[j], hash)
      ensures h == KidsHash(seed, ks, |ks|, hash)
    {
      h := seed;
      for i := 0 to hashes.Length
        invariant h == KidsHash(seed, ks, i, hash)
      {
        h := Wrap(31 * h + hashes[i]);
      }
    }

    /** The array of the children's hashes that `hashCode` fills before folding it. */
    method ChildHashes(hash: T -> i32, ghost U: set<ArrayTree<T>>) returns (hashes: array<i32>)
      requires Wf(U) && this in U
      ensures hashes.Length == used
      ensures forall j | 0 <= j < used :: hashes[j] == HashOf(KidShapes(this, used, U)[j], hash)
      decreases Sub(this, U), 0
    {
      hashes := new i32[used];
      ghost var ks := KidShapes(this, used, U);
      for i := 0 to used
        invariant forall j | 0 <= j < i :: hashes[j] == HashOf(ks[j], hash)
      {
        KidShapeAt(U, this, used, i);
        SubOfSlot(U, null, 0, this, i);
        hashes[i] := children[i].HashCode(hash, U);
      }
    }

    /** `toStringSimple`: the node's one-line summary. */
    method ToStringSimple(typeName: T -> string, show: T -> string) returns (r: string)
      ensures r == SimpleLine(IsRoot(), parentIndex, IsLeaf(), content, typeName, show)
    {
      r := if IsRoot() then "" else "[" + IntToString(parentIndex) + "] ";
      if IsLeaf() {
        r := r + "Blatt ";
      } else if IsRoot() {
        r := r + "Wurzel ";
      } else {
        r := r + "Innerer Knoten ";
      }
      if content.Some? {
        var text := "(" + typeName(content.value) + "): " + show(content.value);
        if |text| > 67 {
          text := text[..63] + "...";
        }
        r := r + text;
      } else {
        r := r + ": Null";
      }
      r := r + "\n";
    }

    /**
     * `toString()`: the node's own line, then each used slot rendered one level
     * in, the last one with the closing connector. The lines of the nodes below
     * come from the `toStringSimple` the nested calls dispatch to, here the one of
     * this class.
     */
    method ToString(typeName: T -> string, show: T -> string, ghost U: set<ArrayTree<T>>) returns (r: string)
      requires Wf(U) && this in U
      ensures r == Render(ShapeOf(this, U), IsRoot(), parentIndex, SimpleLines(typeName, show))
    {
      r := ToStringSimple(typeName, show);
      var rest := ChildrenText(1, 0, SimpleLines(typeName, show), U);
      r := r + rest;
    }

    /**
     * `toString(depth, strikes, isLastChild)`: the indentation with its bars, the
     * connector, the node's line, then the children one level deeper; below a
     * node that is not the last child one more bar runs down. The node's line is
     * what the overridable `toStringSimple` returns, given as `line`.
     */
    method ToStringAt(depth: nat, strikes: nat, isLast: bool, line: NodeLine<T>, ghost U: set<ArrayTree<T>>)
      returns (r: string)
      requires Wf(U) && this in U
      requires strikes < depth || (strikes == 0 && (isLast || used == 0))
      ensures SafeStart(ShapeOf(this, U), depth, strikes, isLast)
      ensures r == RenderAt(ShapeOf(this, U), IsRoot(), parentIndex, depth, strikes, isLast, line)
      decreases Sub(this, U), 1
    {
      var head := Head(depth, strikes, isLast, line);
      var childStrikes := if isLast then strikes else strikes + 1;
      var rest := ChildrenText(depth + 1, childStrikes, line, U);
      r := head + rest;
      RenderAtHere(depth, strikes, isLast, line, U);
    }

    /** The node's own part of `toString(depth, strikes, isLastChild)`: indentation, connector, line. */
    method Head(depth: nat, strikes: nat, isLast: bool, line: NodeLine<T>) returns (h: string)
      requires strikes < depth || strikes == 0
      ensures h == Padding(depth, strikes) + (if isLast then LastChild else Junction) + Horizontal
                   + line(IsRoot(), parentIndex, IsLeaf(), content)
    {
      h := Indentation(depth, strikes);
      h := h + (if isLast then LastChild else Junction);
      h := h + Horizontal;
      h := h + line(IsRoot(), parentIndex, IsLeaf(), content);
    }

    /** `RenderAt` of this node's shape, spelled out in the pieces `toString(depth, strikes, isLastChild)` joins. */
    lemma RenderAtHere(depth: nat, strikes: nat, isLast: bool, line: NodeLine<T>, U: set<ArrayTree<T>>)
      requires Wf(U) && this in U
      requires strikes < depth || (strikes == 0 && (isLast || used == 0))
      ensures SafeStart(ShapeOf(this, U), depth, strikes, isLast)
      ensures RenderAt(ShapeOf(this, U), IsRoot(), parentIndex, depth, strikes, isLast, line)
              == Padding(depth, strikes) + (if isLast then LastChild else Junction) + Horizontal
                 + line(IsRoot(), parentIndex, IsLeaf(), content)
                 + RenderKids(KidShapes(this, used, U), used, depth + 1, if isLast then strikes else strikes + 1, line)
    {
      RenderAtNode(ShapeOf(this, U), content, KidShapes(this, used, U), IsRoot(), parentIndex, depth, strikes, isLast,
                   line);
    }

    /** The loop over the used slots shared by both `toString`s: each child rendered at `depth`, in slot order. */
    method ChildrenText(depth: nat, strikes: nat, line: NodeLine<T>, ghost U: set<ArrayTree<T>>) returns (text: string)
      requires Wf(U) && this in U
      requires used == 0 || strikes < depth
      ensures text == RenderKids(KidShapes(this, used, U), used, depth, strikes, line)
      decreases Sub(this, U), 0
    {
      ghost var ks := KidShapes(this, used, U);
      text := "";
      for i := 0 to used
        invariant text == RenderKids(ks, i, depth, strikes, line)
      {
        KidShapeAt(U, this, used, i);
        SubOfSlot(U, null, 0, this, i);
        var s := children[i].ToStringAt(depth, strikes, i == used - 1, line, U);
        text := text + s;
      }
    }

    /** The padding region of `toString(depth, strikes, isLastChild)`: `depth` tabs, bars written over tabs 1..strikes. */
    static method Indentation(depth: nat, strikes: nat) returns (p: string)
      requires strikes < depth || strikes == 0
      ensures p == Padding(depth, strikes)
    {
      var blank := "";
      for i := 0 to depth
        invariant |blank| == TabWidth * i
        invariant forall k | 0 <= k < |blank| :: blank[k] == ' '
      {
        blank := blank + "    ";
      }
      var chars := new char[|blank|](k requires 0 <= k < |blank| => blank[k]);
      for i := 0 to strikes
        invariant forall k | 0 <= k < chars.Length ::
                    chars[k] == if k % TabWidth == 0 && 1 <= k / TabWidth <= i then Strike else ' '
      {
        chars[(i + 1) * TabWidth] := Strike;
      }
      p := chars[..];
      forall k | 0 <= k < |p|
        ensures p[k] == Padding(depth, strikes)[k]
      {
        PaddingAt(depth, strikes, k);
      }
    }
  }

  // ------------------------------------------------------------------ the invariant

  /** `used <= capacity`, and `capacity` is the length of the child buffer. */
  ghost predicate StorageOk<T>(x: ArrayTree<T>)
    reads x
  {
    0 <= x.used <= x.capacity == |x.children|
  }

  /**
   * The up-link of `x`: an orphan has index -1 and no ancestors; otherwise slot
   * `parentIndex` of its parent, below the parent's `used`, holds `x`.
   */
  ghost predicate UpOk<T>(x: ArrayTree<T>, U: set<ArrayTree<T>>)
    requires x in U
    reads U
  {
    && (x.parent == null ==> x.parentIndex == -1 && x.ancestors == [])
    && (x.parent != null ==>
          && x.parent in U
          && 0 <= x.parentIndex < x.parent.used && x.parentIndex < |x.parent.children|
          && x.parent.children[x.parentIndex] == x
          && x.ancestors == [x.parent] + x.parent.ancestors)
  }

  /**
   * The down-links of `x`: every used slot holds a node of `U` whose parent is `x`
   * and whose index is the slot, except slot `k` of node `hole`, which only has
   * to hold some node of `U`.
   */
  ghost predicate DownOk<T>(x: ArrayTree<T>, U: set<ArrayTree<T>>, hole: ArrayTree?<T>, k: int)
    requires x in U
    reads U
  {
    forall i | 0 <= i < x.used ::
      && i < |x.children| && x.children[i] != null && x.children[i] in U
      && ((x != hole || i != k) ==> x.children[i].parent == x && x.children[i].parentIndex == i)
  }

  /**
   * Membership in the universe, as a name for quantifiers over the nodes to hang
   * on: unlike `x in U` it does not recur in the per-node predicates (which would
   * let the solver walk parent and child links without end), and unlike them it
   * does not depend on the heap.
   */
  ghost predicate Member<T>(x: ArrayTree<T>, U: set<ArrayTree<T>>)
  {
    x in U
  }

  /** Every node has consistent storage and up-links. */
  ghost predicate Linked<T>(U: set<ArrayTree<T>>)
    reads U
  {
    && (forall x | x in U :: StorageOk(x))
    && (forall x {:trigger Member(x, U)} {:trigger UpOk(x, U)} | x in U && Member(x, U) :: UpOk(x, U))
  }

  /** The invariant with one slot exempt from its down-link (a slot being replaced). */
  ghost predicate WfBut<T>(U: set<ArrayTree<T>>, hole: ArrayTree?<T>, k: int)
    reads U
  {
    && Linked(U)
    && (forall x {:trigger Member(x, U)} {:trigger DownOk(x, U, hole, k)} | x in U && Member(x, U) ::
         DownOk(x, U, hole, k))
  }

  /** The invariant of a forest of ArrayTree nodes. */
  ghost predicate Wf<T>(U: set<ArrayTree<T>>)
    reads U
  {
    WfBut(U, null, 0)
  }

  /** What `setParent` decides: taken, itself, below itself, or fine, checked in that order. */
  ghost function AttachVerdict<T>(tree: ArrayTree<T>, parentTree: ArrayTree<T>, U: set<ArrayTree<T>>): Outcome
    reads tree`parent, U`ancestors
  {
    if tree.parent != null then Fail(AlreadyAttached)
    else if tree == parentTree then Fail(SelfAttachment)
    else if parentTree in Sub(tree, U) then Fail(CycleDetected)
    else Pass
  }

  /**
   * What `setChild(id, t)` decides: the slot's own occupant is orphaned first and
   * so always passes; any other node is judged as `setParent` judges it.
   */
  ghost function ReplaceVerdict<T>(p: ArrayTree<T>, id: int, t: ArrayTree<T>, U: set<ArrayTree<T>>): Outcome
    requires 0 <= id < |p.children|
    reads p`children, t`parent, U`ancestors
  {
    if t == p.children[id] then Pass else AttachVerdict(t, p, U)
  }

  /**
   * What the `setChildren` loop decides for `kids[i]` once the nodes before it
   * are linked: a repeat of one of them is taken by then, and otherwise the node
   * is judged as `setParent` judges it.
   */
  ghost function KidVerdict<T>(p: ArrayTree<T>, kids: seq<ArrayTree<T>>, i: int, U: set<ArrayTree<T>>): Outcome
    requires 0 <= i < |kids|
    reads {kids[i]}`parent, U`ancestors
  {
    if kids[i] in kids[..i] then Fail(AlreadyAttached) else AttachVerdict(kids[i], p, U)
  }

  /** The first of `kids[i..]` that the `setChildren` loop rejects, or `|kids|` if none is. */
  ghost function FirstRejected<T>(p: ArrayTree<T>, kids: seq<ArrayTree<T>>, i: int, U: set<ArrayTree<T>>): (n: int)
    requires 0 <= i <= |kids| && forall j | 0 <= j < |kids| :: kids[j] in U
    reads U`parent, U`ancestors
    ensures i <= n <= |kids|
    ensures n < |kids| ==> KidVerdict(p, kids, n, U).Fail?
    ensures forall j | i <= j < n :: KidVerdict(p, kids, j, U).Pass?
    decreases |kids| - i
  {
    if i == |kids| then |kids|
    else if KidVerdict(p, kids, i, U).Fail? then i
    else FirstRejected(p, kids, i + 1, U)
  }

  /** The first of `kids[i..]` that already has a parent or repeats an earlier one, or `|kids|` if none does. */
  ghost function FirstTaken<T>(kids: seq<ArrayTree<T>>, i: int, U: set<ArrayTree<T>>): (n: int)
    requires 0 <= i <= |kids| && forall j | 0 <= j < |kids| :: kids[j] in U
    reads U`parent
    ensures i <= n <= |kids|
    ensures n < |kids| ==> kids[n].parent != null || kids[n] in kids[..n]
    ensures forall j | i <= j < n :: kids[j].parent == null && kids[j] !in kids[..j]
    decreases |kids| - i
  {
    if i == |kids| then |kids|
    else if kids[i].parent != null || kids[i] in kids[..i] then i
    else FirstTaken(kids, i + 1, U)
  }

  /** A fresh orphan leaf joins the universe without breaking the invariant. */
  lemma FreshKeepsWf<T>(U: set<ArrayTree<T>>, t: ArrayTree<T>)
    requires Wf(U) && t !in U
    requires t.parent == null && t.parentIndex == -1 && t.ancestors == [] && t.used == 0 == |t.children| == t.capacity
    ensures Wf(U + {t})
  {
    forall x | x in U + {t}
      ensures StorageOk(x) && UpOk(x, U + {t}) && DownOk(x, U + {t}, null, 0)
    {
      if x != t {
        assert Member(x, U);
      }
    }
  }

  /**
   * For the `setChildren` of a fresh orphan `t` (one outside `U`), every verdict
   * of the loop reduces to whether the node is taken or repeated.
   */
  lemma {:induction false} FreshVerdicts<T>(t: ArrayTree<T>, kids: seq<ArrayTree<T>>, i: int, U: set<ArrayTree<T>>)
    requires 0 <= i <= |kids| && (forall j | 0 <= j < |kids| :: kids[j] in U) && t !in U && t.ancestors == []
    ensures FirstRejected(t, kids, i, U + {t}) == FirstTaken(kids, i, U)
    ensures var n := FirstTaken(kids, i, U); n < |kids| ==> KidVerdict(t, kids, n, U + {t}) == Fail(AlreadyAttached)
    decreases |kids| - i
  {
    if i < |kids| {
      assert t !in Sub(kids[i], U + {t});
      FreshVerdicts(t, kids, i + 1, U);
    }
  }

  /** Concatenation regroups freely; stated once for the chains of ancestors. */
  lemma AppendAssoc<T>(a: seq<T>, b: seq<T>, c: seq<T>)
    ensures (a + b) + c == a + (b + c)
  {
  }

  /** The subtree of `n`: `n` and every node that has `n` among its ancestors. */
  ghost function Sub<T>(n: ArrayTree<T>, U: set<ArrayTree<T>>): set<ArrayTree<T>>
    reads U`ancestors
  {
    set x | x in U && (x == n || n in x.ancestors)
  }

  // ------------------------------------------------------------------ ancestry

  /** The ancestor at position `i` has as its own ancestors exactly the rest of the chain. */
  lemma {:induction false} AncestorsSuffix<T>(U: set<ArrayTree<T>>, y: ArrayTree<T>, i: nat)
    requires Linked(U) && y in U && i < |y.ancestors|
    ensures y.ancestors[i] in U && y.ancestors[i].ancestors == y.ancestors[i + 1..]
    decreases i
  {
    assert StorageOk(y) && UpOk(y, U);
    if i > 0 {
      AncestorsSuffix(U, y.parent, i - 1);
    }
  }

  /** A node of `n`'s subtree has `n`'s chain as the tail of its own. */
  lemma AncestorsOfSub<T>(U: set<ArrayTree<T>>, n: ArrayTree<T>, y: ArrayTree<T>)
    requires Linked(U) && y in Sub(n, U)
    ensures |n.ancestors| <= |y.ancestors| && y.ancestors[|y.ancestors| - |n.ancestors|..] == n.ancestors
  {
    if y != n {
      var i :| 0 <= i < |y.ancestors| && y.ancestors[i] == n;
      AncestorsSuffix(U, y, i);
    }
  }

  /** The chain of `n` ends the chain of every node in `n`'s subtree. */
  ghost predicate ChainTail<T>(n: ArrayTree<T>, U: set<ArrayTree<T>>)
    reads U, n
  {
    forall y | y in Sub(n, U) :: |n.ancestors| <= |y.ancestors| && y.ancestors[|y.ancestors| - |n.ancestors|..] == n.ancestors
  }

  /** In a linked forest every node's chain ends the chains of its subtree. */
  lemma ChainTailHolds<T>(U: set<ArrayTree<T>>, n: ArrayTree<T>)
    requires Linked(U)
    ensures ChainTail(n, U)
  {
    forall y | y in Sub(n, U)
      ensures |n.ancestors| <= |y.ancestors| && y.ancestors[|y.ancestors| - |n.ancestors|..] == n.ancestors
    {
      AncestorsOfSub(U, n, y);
    }
  }

  /** Ancestors sit strictly higher; in particular no node is its own ancestor. */
  lemma AncestorIsHigher<T>(U: set<ArrayTree<T>>, y: ArrayTree<T>, a: ArrayTree<T>)
    requires Linked(U) && y in U && a in y.ancestors
    ensures a in U && |a.ancestors| < |y.ancestors|
    ensures a != y
  {
    var i :| 0 <= i < |y.ancestors| && y.ancestors[i] == a;
    AncestorsSuffix(U, y, i);
  }

  /** The subtree of a child is a proper part of the subtree of its parent. */
  lemma SubOfChild<T>(U: set<ArrayTree<T>>, n: ArrayTree<T>, c: ArrayTree<T>)
    requires Linked(U) && n in U && c in U && c.parent == n
    ensures Sub(c, U) < Sub(n, U)
  {
    assert StorageOk(c) && UpOk(c, U);
    forall x | x in Sub(c, U)
      ensures x in Sub(n, U)
    {
      if x != c {
        var i :| 0 <= i < |x.ancestors| && x.ancestors[i] == c;
        AncestorsSuffix(U, x, i);
        assert x.ancestors[i + 1] == n;
      }
    }
    assert n in Sub(n, U);
    if n in Sub(c, U) && n != c {
      AncestorIsHigher(U, n, c);
    }
  }

  /** A proper descendant of `n` lies in the subtree of one of `n`'s used slots. */
  lemma SubSplit<T>(U: set<ArrayTree<T>>, n: ArrayTree<T>, x: ArrayTree<T>) returns (i: int)
    requires Linked(U) && n in U && x in Sub(n, U) && x != n
    ensures 0 <= i < n.used && i < |n.children|
    ensures n.children[i] != null && n.children[i] in U && n.children[i].parent == n
    ensures x in Sub(n.children[i], U)
  {
    var j :| 0 <= j < |x.ancestors| && x.ancestors[j] == n;
    var c: ArrayTree<T>;
    if j == 0 {
      c := x;
    } else {
      AncestorsSuffix(U, x, j - 1);
      c := x.ancestors[j - 1];
    }
    assert StorageOk(c) && UpOk(c, U);
    assert c.ancestors[0] == n;
    i := c.parentIndex;
  }

  /** With a down-link in place, a slot's subtree is part of its parent's. */
  lemma SubOfSlot<T>(U: set<ArrayTree<T>>, hole: ArrayTree?<T>, k: int, n: ArrayTree<T>, i: int)
    requires WfBut(U, hole, k) && n in U && 0 <= i < n.used && (n != hole || i != k)
    ensures i < |n.children| && n.children[i] != null
    ensures n.children[i] in U && n.children[i].parent == n && n.children[i].parentIndex == i
    ensures Sub(n.children[i], U) < Sub(n, U)
  {
    assert DownOk(n, U, hole, k);
    SubOfChild(U, n, n.children[i]);
  }

  // ------------------------------------------------------------------ the invariant across attachment

  /**
   * One successful `addChild` step, as a relation between the state before and
   * after: the orphan `t` takes the next slot of `p`, `p`'s chain is appended to
   * the ancestors of `t`'s subtree, and nothing else changes.
   */
  twostate predicate Attached<T>(new U: set<ArrayTree<T>>, new p: ArrayTree<T>, new t: ArrayTree<T>)
    reads U
  {
    && old(allocated(U)) && old(allocated(p)) && old(allocated(t)) && p in U && t in U && t != p
    && old(t.parent) == null && p !in old(Sub(t, U)) && old(0 <= p.used <= |p.children|)
    && t.parent == p && t.parentIndex == old(p.used)
    && p.used == old(p.used) + 1 && p.used <= p.capacity == |p.children|
    && p.children[..old(p.used)] == old(p.children[..p.used]) && p.children[old(p.used)] == t
    && p.parent == old(p.parent) && p.parentIndex == old(p.parentIndex)
    && (forall x | x in U && x != p :: x.used == old(x.used) && x.capacity == old(x.capacity) && x.children == old(x.children))
    && (forall x | x in U && x != t :: x.parent == old(x.parent) && x.parentIndex == old(x.parentIndex))
    && (forall x | x in U ::
          x.ancestors == if x in old(Sub(t, U)) then old(x.ancestors) + ([p] + old(p.ancestors)) else old(x.ancestors))
  }

  /** An `addChild` step keeps the invariant. */
  twostate lemma AttachKeepsWf<T>(new U: set<ArrayTree<T>>, new p: ArrayTree<T>, new t: ArrayTree<T>)
    requires old(allocated(U)) && old(Wf(U)) && Attached(U, p, t)
    ensures Wf(U)
  {
    assert Member(p, U) && Member(t, U);
    assert old(UpOk(t, U) && DownOk(p, U, null, 0));
    forall x | x in U
      ensures StorageOk(x) && UpOk(x, U) && DownOk(x, U, null, 0)
    {
      assert Member(x, U);
      assert old(StorageOk(x) && UpOk(x, U) && DownOk(x, U, null, 0));
      AttachKeepsUp(U, p, t, x);
      AttachKeepsDown(U, p, t, x);
    }
  }

  /** After an `addChild` step every node's up-link is consistent. */
  twostate lemma AttachKeepsUp<T>(new U: set<ArrayTree<T>>, new p: ArrayTree<T>, new t: ArrayTree<T>, new x: ArrayTree<T>)
    requires Attached(U, p, t) && old(allocated(x)) && x in U
    requires old(StorageOk(x) && UpOk(x, U) && UpOk(t, U))
    ensures StorageOk(x) && UpOk(x, U)
  {
    if x == t {
      assert t in old(Sub(t, U));
      assert old(t.ancestors) == [];
      assert t.ancestors == [p] + old(p.ancestors);
      assert p.ancestors == old(p.ancestors);
    } else if x in old(Sub(t, U)) {
      AttachKeepsUpBelow(U, p, t, x);
    } else {
      AttachKeepsUpElsewhere(U, p, t, x);
    }
  }

  /** Inside the attached subtree, links stay and chains grow by the same tail. */
  twostate lemma AttachKeepsUpBelow<T>(new U: set<ArrayTree<T>>, new p: ArrayTree<T>, new t: ArrayTree<T>,
                                        new x: ArrayTree<T>)
    requires Attached(U, p, t) && old(allocated(x)) && x in U
    requires old(StorageOk(x) && UpOk(x, U))
    requires x != t && x in old(Sub(t, U))
    ensures StorageOk(x) && UpOk(x, U)
  {
    var q := x.parent;
    assert x.parent == old(x.parent) && x.parentIndex == old(x.parentIndex);
    assert q in old(Sub(t, U)) && q != p;
    assert q.used == old(q.used) && q.children == old(q.children);
    assert old(x.ancestors) == [q] + old(q.ancestors);
    AppendAssoc([q], old(q.ancestors), [p] + old(p.ancestors));
  }

  /** Outside the attached subtree nothing a node's up-link looks at has changed. */
  twostate lemma AttachKeepsUpElsewhere<T>(new U: set<ArrayTree<T>>, new p: ArrayTree<T>, new t: ArrayTree<T>,
                                            new x: ArrayTree<T>)
    requires Attached(U, p, t) && old(allocated(x)) && x in U
    requires old(StorageOk(x) && UpOk(x, U))
    requires x != t && x !in old(Sub(t, U))
    ensures StorageOk(x) && UpOk(x, U)
  {
    if x.parent != null {
      var q := x.parent;
      assert q !in old(Sub(t, U));
      if q == p {
        var j := x.parentIndex;
        assert p.children[j] == p.children[..old(p.used)][j] == old(p.children[..p.used])[j];
      }
    }
  }

  /** After an `addChild` step every node's down-links are consistent. */
  twostate lemma AttachKeepsDown<T>(new U: set<ArrayTree<T>>, new p: ArrayTree<T>, new t: ArrayTree<T>, new x: ArrayTree<T>)
    requires Attached(U, p, t) && old(allocated(x)) && x in U
    requires old(DownOk(x, U, null, 0))
    ensures DownOk(x, U, null, 0)
  {
    if x != p {
      AttachKeepsDownElsewhere(U, p, t, x);
    } else {
      AttachKeepsDownParent(U, p, t);
    }
  }

  /** The slots of a node other than the new parent are untouched, and so are their occupants' links. */
  twostate lemma AttachKeepsDownElsewhere<T>(new U: set<ArrayTree<T>>, new p: ArrayTree<T>, new t: ArrayTree<T>, new x: ArrayTree<T>)
    requires Attached(U, p, t) && old(allocated(x)) && x in U && x != p
    requires old(DownOk(x, U, null, 0))
    ensures DownOk(x, U, null, 0)
  {
    assert x.used == old(x.used) && x.children == old(x.children);
    forall j | 0 <= j < x.used
      ensures j < |x.children| && x.children[j] != null && x.children[j] in U
      ensures x.children[j].parent == x && x.children[j].parentIndex == j
    {
      assert old(j < |x.children| && x.children[j].parent == x && x.children[j].parentIndex == j);
      var c := x.children[j];
      assert c != t && c.parent == old(c.parent) && c.parentIndex == old(c.parentIndex);
    }
  }

  /** The new parent keeps its old slots and their occupants' links, and its new slot holds `t`. */
  twostate lemma AttachKeepsDownParent<T>(new U: set<ArrayTree<T>>, new p: ArrayTree<T>, new t: ArrayTree<T>)
    requires Attached(U, p, t)
    requires old(DownOk(p, U, null, 0))
    ensures DownOk(p, U, null, 0)
  {
    forall j | 0 <= j < p.used
      ensures j < |p.children| && p.children[j] != null && p.children[j] in U
      ensures p.children[j].parent == p && p.children[j].parentIndex == j
    {
      if j < old(p.used) {
        assert p.children[j] == p.children[..old(p.used)][j] == old(p.children[..p.used])[j];
        assert old(j < |p.children| && p.children[j].parent == p && p.children[j].parentIndex == j);
        var c := p.children[j];
        assert c != t && c.parent == old(c.parent) && c.parentIndex == old(c.parentIndex);
      }
    }
  }

  /**
   * One `removeChild` step, as a relation between the state before and after:
   * the child `r` of slot `index` of `p` is orphaned, the later slots move one to
   * the left and learn their new slot, `p`'s chain is cut off the ancestors of
   * `r`'s subtree, and nothing else changes.
   */
  twostate predicate DetachedCore<T>(new U: set<ArrayTree<T>>, new p: ArrayTree<T>, new r: ArrayTree<T>, index: int)
    reads U
  {
    && old(allocated(U)) && old(allocated(p)) && old(allocated(r)) && p in U && r in U
    && 0 <= index < old(p.used) <= old(|p.children|) && old(p.children[index]) == r && p !in old(Sub(r, U))
    && r.parent == null && r.parentIndex == -1
    && p.used == old(p.used) - 1 && p.capacity == old(p.capacity) && |p.children| == old(|p.children|)
    && p.children[..p.used] == old(p.children[..index] + p.children[index + 1..p.used]) && p.children[p.used] == null
    && p.parent == old(p.parent) && p.parentIndex == old(p.parentIndex)
    && (forall j | index <= j < p.used :: p.children[j] != null && p.children[j] in U && p.children[j].parentIndex == j)
    && (forall x | x in U && x != p :: x.used == old(x.used) && x.capacity == old(x.capacity) && x.children == old(x.children))
    && (forall x | x in U && x != r :: x.parent == old(x.parent))
    && (forall x | x in U && x != r && x !in old(p.children[index + 1..p.used]) :: x.parentIndex == old(x.parentIndex))
    && (forall x | x in U ::
          if x in old(Sub(r, U)) then old(x.ancestors) == x.ancestors + old(r.ancestors) else x.ancestors == old(x.ancestors))
  }

  /** A `removeChild` step from a state satisfying the invariant. */
  twostate predicate Detached<T>(new U: set<ArrayTree<T>>, new p: ArrayTree<T>, new r: ArrayTree<T>, index: int)
    reads U
  {
    old(allocated(U)) && old(Wf(U)) && DetachedCore(U, p, r, index)
  }

  /** A `removeChild` step keeps the invariant. */
  twostate lemma DetachKeepsWf<T>(new U: set<ArrayTree<T>>, new p: ArrayTree<T>, new r: ArrayTree<T>, index: int)
    requires old(allocated(U)) && old(Wf(U)) && DetachedCore(U, p, r, index)
    ensures Wf(U)
  {
    assert Member(p, U) && Member(r, U);
    assert old(DownOk(p, U, null, 0) && UpOk(r, U));
    forall x | x in U
      ensures StorageOk(x) && UpOk(x, U) && DownOk(x, U, null, 0)
    {
      assert Member(x, U);
      assert old(StorageOk(x) && UpOk(x, U) && DownOk(x, U, null, 0));
      DetachKeepsUp(U, p, r, index, x);
      DetachKeepsDown(U, p, r, index, x);
    }
  }

  /** After a `removeChild` step every node's up-link is consistent. */
  twostate lemma DetachKeepsUp<T>(new U: set<ArrayTree<T>>, new p: ArrayTree<T>, new r: ArrayTree<T>, index: int,
                                   new x: ArrayTree<T>)
    requires old(allocated(U)) && DetachedCore(U, p, r, index) && old(allocated(x)) && x in U
    requires old(StorageOk(x) && UpOk(x, U) && DownOk(p, U, null, 0) && UpOk(r, U))
    ensures StorageOk(x) && UpOk(x, U)
  {
    if x == r {
      assert |x.ancestors| == 0;
    } else if x in old(Sub(r, U)) {
      DetachKeepsUpBelow(U, p, r, index, x);
    } else if x.parent == p {
      DetachKeepsUpSibling(U, p, r, index, x);
    } else if x.parent != null {
      assert x.parent !in old(Sub(r, U));
    }
  }

  /** Below the removed child, chains are cut by the same tail and links stay. */
  twostate lemma DetachKeepsUpBelow<T>(new U: set<ArrayTree<T>>, new p: ArrayTree<T>, new r: ArrayTree<T>, index: int,
                                        new x: ArrayTree<T>)
    requires old(allocated(U)) && DetachedCore(U, p, r, index) && old(allocated(x)) && x in U
    requires old(StorageOk(x) && UpOk(x, U) && DownOk(p, U, null, 0))
    requires x != r && x in old(Sub(r, U))
    ensures StorageOk(x) && UpOk(x, U)
  {
    var q := x.parent;
    assert x != p && x.parent == old(x.parent) && q != null && q in U;
    assert StorageOk(x);
    assert q in old(Sub(r, U));
    assert q != p && q.children == old(q.children) && q.used == old(q.used);
    assert Member(p, U);
    forall j | index + 1 <= j < old(p.used)
      ensures old(p.children[j]) != x
    {
      assert old(p.children[j].parent) == p;
    }
    assert old(x.ancestors) == [q] + old(q.ancestors);
    assert x.ancestors + old(r.ancestors) == [q] + q.ancestors + old(r.ancestors);
    assert x.ancestors == (x.ancestors + old(r.ancestors))[..|x.ancestors|];
  }

  /** A remaining child of the parent finds itself in its (possibly shifted) slot. */
  twostate lemma DetachKeepsUpSibling<T>(new U: set<ArrayTree<T>>, new p: ArrayTree<T>, new r: ArrayTree<T>, index: int,
                                          new x: ArrayTree<T>)
    requires old(allocated(U)) && DetachedCore(U, p, r, index) && old(allocated(x)) && x in U
    requires old(StorageOk(x) && UpOk(x, U) && DownOk(p, U, null, 0))
    requires x != r && x !in old(Sub(r, U)) && x.parent == p
    ensures StorageOk(x) && UpOk(x, U)
  {
    var j := old(x.parentIndex);
    if j > index {
      assert x == old(p.children[j]) == p.children[j - 1];
    } else {
      assert x == old(p.children[j]) == p.children[j];
    }
  }

  /** After a `removeChild` step every node's down-links are consistent. */
  twostate lemma DetachKeepsDown<T>(new U: set<ArrayTree<T>>, new p: ArrayTree<T>, new r: ArrayTree<T>, index: int,
                                     new x: ArrayTree<T>)
    requires old(allocated(U)) && DetachedCore(U, p, r, index) && old(allocated(x)) && x in U
    requires old(DownOk(x, U, null, 0) && DownOk(p, U, null, 0) && UpOk(r, U))
    ensures DownOk(x, U, null, 0)
  {
    ghost var moved := old(p.children[index + 1..p.used]);
    assert forall c | c in moved :: old(c.parent) == p && old(c.parentIndex) > index;
    forall j | 0 <= j < x.used
      ensures j < |x.children| && x.children[j] != null && x.children[j] in U
      ensures x.children[j].parent == x && x.children[j].parentIndex == j
    {
      if x == p && j >= index {
        assert x.children[j] == old(p.children[j + 1]);
      } else {
        assert x.children[j] == old(x.children[j]);
        ghost var c := x.children[j];
        assert c != r && c !in moved;
      }
    }
  }

  // ------------------------------------------------------------------ the invariant across slot writes

  /**
   * The first half of `setChild`, as a relation between the state before and
   * after: the occupant `r` of slot `k` of `p` is orphaned, its subtree drops
   * `p`'s chain, the slot now holds `t`, and nothing else changes.
   */
  twostate predicate Replaced<T>(new U: set<ArrayTree<T>>, new p: ArrayTree<T>, new r: ArrayTree<T>,
                                 new t: ArrayTree<T>, k: int)
    reads U
  {
    && old(allocated(U)) && old(allocated(p)) && old(allocated(r)) && old(allocated(t)) && p in U && r in U && t in U
    && 0 <= k < old(p.used) <= old(|p.children|) && old(p.children[k]) == r && p !in old(Sub(r, U))
    && r.parent == null && r.parentIndex == -1
    && p.children == old(p.children)[k := t] && p.used == old(p.used) && p.capacity == old(p.capacity)
    && (forall x | x in U && x != p :: x.used == old(x.used) && x.capacity == old(x.capacity) && x.children == old(x.children))
    && (forall x | x in U && x != r :: x.parent == old(x.parent) && x.parentIndex == old(x.parentIndex))
    && (forall x | x in U ::
          if x in old(Sub(r, U)) then old(x.ancestors) == x.ancestors + old(r.ancestors) else x.ancestors == old(x.ancestors))
  }

  /** After the first half of `setChild` only the written slot may be out of step. */
  twostate lemma ReplaceKeepsWfBut<T>(new U: set<ArrayTree<T>>, new p: ArrayTree<T>, new r: ArrayTree<T>,
                                       new t: ArrayTree<T>, k: int)
    requires old(allocated(U)) && old(Wf(U)) && Replaced(U, p, r, t, k)
    ensures WfBut(U, p, k)
  {
    assert Member(p, U) && Member(r, U);
    assert old(DownOk(p, U, null, 0) && UpOk(r, U));
    forall x | x in U
      ensures StorageOk(x) && UpOk(x, U) && DownOk(x, U, p, k)
    {
      assert Member(x, U);
      assert old(StorageOk(x) && UpOk(x, U) && DownOk(x, U, null, 0));
      ReplaceKeepsUp(U, p, r, t, k, x);
      ReplaceKeepsDown(U, p, r, t, k, x);
    }
  }

  /** After the first half of `setChild` every node's up-link is consistent. */
  twostate lemma ReplaceKeepsUp<T>(new U: set<ArrayTree<T>>, new p: ArrayTree<T>, new r: ArrayTree<T>,
                                    new t: ArrayTree<T>, k: int, new x: ArrayTree<T>)
    requires Replaced(U, p, r, t, k) && old(allocated(x)) && x in U
    requires old(StorageOk(x) && UpOk(x, U) && UpOk(r, U))
    ensures StorageOk(x) && UpOk(x, U)
  {
    if x == r {
      assert |x.ancestors| == 0;
    } else if x in old(Sub(r, U)) {
      ReplaceKeepsUpBelow(U, p, r, t, k, x);
    } else if x.parent != null {
      assert x.parent !in old(Sub(r, U));
    }
  }

  /** Inside the cut-off subtree, links stay and chains lose the same tail. */
  twostate lemma ReplaceKeepsUpBelow<T>(new U: set<ArrayTree<T>>, new p: ArrayTree<T>, new r: ArrayTree<T>,
                                         new t: ArrayTree<T>, k: int, new x: ArrayTree<T>)
    requires Replaced(U, p, r, t, k) && old(allocated(x)) && x in U
    requires old(StorageOk(x) && UpOk(x, U))
    requires x != r && x in old(Sub(r, U))
    ensures StorageOk(x) && UpOk(x, U)
  {
    var q := x.parent;
    assert x.parent == old(x.parent) && x.parentIndex == old(x.parentIndex);
    assert q in old(Sub(r, U)) && q != p;
    assert q.used == old(q.used) && q.children == old(q.children);
    assert old(x.ancestors) == [q] + old(q.ancestors);
    assert x.ancestors + old(r.ancestors) == [q] + q.ancestors + old(r.ancestors);
    assert x.ancestors == (x.ancestors + old(r.ancestors))[..|x.ancestors|];
  }

  /** After the first half of `setChild` every down-link is consistent, the written slot aside. */
  twostate lemma ReplaceKeepsDown<T>(new U: set<ArrayTree<T>>, new p: ArrayTree<T>, new r: ArrayTree<T>,
                                      new t: ArrayTree<T>, k: int, new x: ArrayTree<T>)
    requires Replaced(U, p, r, t, k) && old(allocated(x)) && x in U
    requires old(DownOk(x, U, null, 0) && DownOk(p, U, null, 0))
    ensures DownOk(x, U, p, k)
  {
    assert old(r.parent == p && r.parentIndex == k);
    forall j | 0 <= j < x.used
      ensures j < |x.children| && x.children[j] != null && x.children[j] in U
      ensures (x != p || j != k) ==> x.children[j].parent == x && x.children[j].parentIndex == j
    {
      if x != p || j != k {
        assert old(DownOk(x, U, null, 0)) && 0 <= j < old(x.used) && x.used == old(x.used);
        assert old(j < |x.children| && x.children[j].parent == x && x.children[j].parentIndex == j);
        assert x.children[j] == old(x.children[j]);
        assert old(j < |x.children| && x.children[j].parent == x && x.children[j].parentIndex == j);
      }
    }
  }

  /**
   * `setParent` into a slot that already holds the node, as a relation between
   * the state before and after: the orphan `t` learns its parent `p` and slot
   * `k`, `p`'s chain is appended to the ancestors of `t`'s subtree, and nothing
   * else changes.
   */
  twostate predicate Filled<T>(new U: set<ArrayTree<T>>, new p: ArrayTree<T>, new t: ArrayTree<T>, k: int)
    reads U
  {
    && old(allocated(U)) && old(allocated(p)) && old(allocated(t)) && p in U && t in U && t != p
    && 0 <= k < old(p.used) <= old(|p.children|) && old(p.children[k]) == t
    && old(t.parent) == null && p !in old(Sub(t, U))
    && t.parent == p && t.parentIndex == k
    && (forall x | x in U :: x.used == old(x.used) && x.capacity == old(x.capacity) && x.children == old(x.children))
    && (forall x | x in U && x != t :: x.parent == old(x.parent) && x.parentIndex == old(x.parentIndex))
    && (forall x | x in U ::
          x.ancestors == if x in old(Sub(t, U)) then old(x.ancestors) + ([p] + old(p.ancestors)) else old(x.ancestors))
  }

  /** Linking the node a slot already holds closes the one gap in the invariant. */
  twostate lemma FillKeepsWf<T>(new U: set<ArrayTree<T>>, new p: ArrayTree<T>, new t: ArrayTree<T>, k: int)
    requires Filled(U, p, t, k) && old(WfBut(U, p, k))
    ensures Wf(U)
  {
    assert Member(t, U);
    assert old(UpOk(t, U));
    forall x | x in U
      ensures StorageOk(x) && UpOk(x, U) && DownOk(x, U, null, 0)
    {
      assert Member(x, U);
      assert old(StorageOk(x) && UpOk(x, U) && DownOk(x, U, p, k));
      FillKeepsUp(U, p, t, k, x);
      FillKeepsDown(U, p, t, k, x);
    }
  }

  /** After linking into a written slot every node's up-link is consistent. */
  twostate lemma FillKeepsUp<T>(new U: set<ArrayTree<T>>, new p: ArrayTree<T>, new t: ArrayTree<T>, k: int,
                                 new x: ArrayTree<T>)
    requires Filled(U, p, t, k) && old(allocated(x)) && x in U
    requires old(StorageOk(x) && UpOk(x, U) && UpOk(t, U))
    ensures StorageOk(x) && UpOk(x, U)
  {
    if x == t {
      assert t in old(Sub(t, U));
      assert old(t.ancestors) == [];
      assert t.ancestors == [p] + old(p.ancestors);
      assert p.ancestors == old(p.ancestors);
    } else if x in old(Sub(t, U)) {
      FillKeepsUpBelow(U, p, t, k, x);
    } else if x.parent != null {
      assert x.parent !in old(Sub(t, U));
    }
  }

  /** Inside the linked subtree, links stay and chains grow by the same tail. */
  twostate lemma FillKeepsUpBelow<T>(new U: set<ArrayTree<T>>, new p: ArrayTree<T>, new t: ArrayTree<T>, k: int,
                                      new x: ArrayTree<T>)
    requires Filled(U, p, t, k) && old(allocated(x)) && x in U
    requires old(StorageOk(x) && UpOk(x, U))
    requires x != t && x in old(Sub(t, U))
    ensures StorageOk(x) && UpOk(x, U)
  {
    var q := x.parent;
    assert x.parent == old(x.parent) && x.parentIndex == old(x.parentIndex);
    assert q.used == old(q.used) && q.children == old(q.children);
    assert q in old(Sub(t, U)) && q != p;
    assert old(x.ancestors) == [q] + old(q.ancestors);
    AppendAssoc([q], old(q.ancestors), [p] + old(p.ancestors));
  }

  /** After linking into a written slot every down-link is consistent. */
  twostate lemma FillKeepsDown<T>(new U: set<ArrayTree<T>>, new p: ArrayTree<T>, new t: ArrayTree<T>, k: int,
                                   new x: ArrayTree<T>)
    requires Filled(U, p, t, k) && old(allocated(x)) && x in U
    requires old(DownOk(x, U, p, k))
    ensures DownOk(x, U, null, 0)
  {
    forall j | 0 <= j < x.used
      ensures j < |x.children| && x.children[j] != null && x.children[j] in U
      ensures x.children[j].parent == x && x.children[j].parentIndex == j
    {
      assert x.children == old(x.children) && x.used == old(x.used);
      if x != p || j != k {
        assert old(DownOk(x, U, p, k)) && 0 <= j < old(x.used);
        assert old(j < |x.children| && x.children[j].parent == x);
      }
    }
  }

  /**
   * The fresh buffer of `setChildren`, as a relation between the state before and
   * after: a node without used slots gets a new buffer and capacity, and nothing
   * else changes.
   */
  twostate predicate Rebuffered<T>(new U: set<ArrayTree<T>>, new p: ArrayTree<T>)
    reads U
  {
    && old(allocated(U)) && old(allocated(p)) && p in U && old(p.used) == 0 && p.capacity == |p.children|
    && (forall x | x in U && x != p :: x.capacity == old(x.capacity) && x.children == old(x.children))
    && (forall x | x in U ::
          && x.used == old(x.used) && x.parent == old(x.parent) && x.parentIndex == old(x.parentIndex)
          && x.ancestors == old(x.ancestors))
  }

  /** No node names a parent without used slots, so a new buffer for it breaks no link. */
  twostate lemma RebufferKeepsWf<T>(new U: set<ArrayTree<T>>, new p: ArrayTree<T>)
    requires Rebuffered(U, p) && old(Wf(U))
    ensures Wf(U)
  {
    forall x | x in U
      ensures StorageOk(x) && UpOk(x, U) && DownOk(x, U, null, 0)
    {
      assert Member(x, U);
      assert old(StorageOk(x) && UpOk(x, U) && DownOk(x, U, null, 0));
      forall j | 0 <= j < x.used
        ensures j < |x.children| && x.children[j] != null && x.children[j] in U
        ensures x.children[j].parent == x && x.children[j].parentIndex == j
      {
        assert old(j < |x.children| && x.children[j].parent == x);
      }
    }
  }

  /**
   * One slot of `setChildren` taken, as a relation between the state before and
   * after: `p` uses one more slot, which holds a node of the universe, and
   * nothing else changes.
   */
  twostate predicate Reserved<T>(new U: set<ArrayTree<T>>, new p: ArrayTree<T>, k: int)
    reads U
  {
    && old(allocated(U)) && old(allocated(p)) && p in U && k == old(p.used) && 0 <= k
    && p.capacity == old(p.capacity) && p.capacity == |p.children| == old(|p.children|)
    && p.used == k + 1 <= p.capacity && p.children[..k] == old(p.children[..k]) && p.children[k] != null && p.children[k] in U
    && (forall x | x in U && x != p :: x.used == old(x.used) && x.capacity == old(x.capacity) && x.children == old(x.children))
    && (forall x | x in U ::
          x.parent == old(x.parent) && x.parentIndex == old(x.parentIndex) && x.ancestors == old(x.ancestors))
  }

  /** Taking a slot leaves only that slot out of step. */
  twostate lemma ReserveKeepsWfBut<T>(new U: set<ArrayTree<T>>, new p: ArrayTree<T>, k: int)
    requires old(allocated(U)) && old(Wf(U)) && Reserved(U, p, k)
    ensures WfBut(U, p, k)
  {
    forall x | x in U
      ensures StorageOk(x) && UpOk(x, U) && DownOk(x, U, p, k)
    {
      assert Member(x, U);
      assert old(StorageOk(x) && UpOk(x, U) && DownOk(x, U, null, 0));
      if x.parent == p {
        var j := x.parentIndex;
        assert p.children[j] == p.children[..k][j];
      }
      forall j | 0 <= j < x.used && (x != p || j != k)
        ensures j < |x.children| && x.children[j] != null && x.children[j] in U
        ensures x.children[j].parent == x && x.children[j].parentIndex == j
      {
        if x == p {
          assert p.children[j] == p.children[..k][j];
        }
      }
    }
  }

  // ------------------------------------------------------------------ shapes and search

  /** The value a subtree denotes: its content and the shapes of its used slots in order. */
  ghost function ShapeOf<T>(n: ArrayTree<T>, U: set<ArrayTree<T>>): Shape<T>
    requires Wf(U) && n in U
    reads U
    decreases Sub(n, U), 1, 0
  {
    Node(n.content, KidShapes(n, n.used, U))
  }

  /** The shapes of the first `m` used slots of `n`. */
  ghost function KidShapes<T>(n: ArrayTree<T>, m: int, U: set<ArrayTree<T>>): (ks: seq<Shape<T>>)
    requires Wf(U) && n in U && 0 <= m <= n.used
    reads U
    ensures |ks| == m
    decreases Sub(n, U), 0, m
  {
    if m == 0 then []
    else
      SubOfSlot(U, null, 0, n, m - 1);
      KidShapes(n, m - 1, U) + [ShapeOf(n.children[m - 1], U)]
  }

  /** One step of the rendering, for a node given by its content and kid shapes. */
  lemma RenderAtNode<T>(s: Shape<T>, c: Option<T>, kids: seq<Shape<T>>, isRoot: bool, parentIndex: int, depth: nat,
                        strikes: nat, isLast: bool, line: NodeLine<T>)
    requires s == Node(c, kids) && SafeStart(s, depth, strikes, isLast)
    ensures RenderAt(s, isRoot, parentIndex, depth, strikes, isLast, line)
            == Padding(depth, strikes) + (if isLast then LastChild else Junction) + Horizontal
               + line(isRoot, parentIndex, kids == [], c)
               + RenderKids(kids, |kids|, depth + 1, if isLast then strikes else strikes + 1, line)
  {
  }

  /** Entry `i` of the kid shapes is the shape of slot `i`. */
  lemma {:induction false} KidShapeAt<T>(U: set<ArrayTree<T>>, n: ArrayTree<T>, m: int, i: int)
    requires Wf(U) && n in U && 0 <= i < m <= n.used
    ensures i < |n.children| && n.children[i] != null && n.children[i] in U
    ensures KidShapes(n, m, U)[i] == ShapeOf(n.children[i], U)
    decreases m
  {
    SubOfSlot(U, null, 0, n, i);
    if i < m - 1 {
      KidShapeAt(U, n, m - 1, i);
    }
  }

  /** The first node in pre-order (node, then slot 0's subtree, slot 1's, ...) whose content is `v`. */
  ghost function Find<T>(n: ArrayTree<T>, v: Option<T>, U: set<ArrayTree<T>>): ArrayTree?<T>
    requires Wf(U) && n in U
    reads U
    decreases Sub(n, U), 1, 0
  {
    if n.content == v then n else FindFrom(n, v, 0, U)
  }

  /** The first match in the subtrees of slots `i`, `i + 1`, ... of `n`. */
  ghost function FindFrom<T>(n: ArrayTree<T>, v: Option<T>, i: int, U: set<ArrayTree<T>>): ArrayTree?<T>
    requires Wf(U) && n in U && 0 <= i <= n.used
    reads U
    decreases Sub(n, U), 0, n.used - i
  {
    if i == n.used then null
    else
      SubOfSlot(U, null, 0, n, i);
      var f := Find(n.children[i], v, U);
      if f != null then f else FindFrom(n, v, i + 1, U)
  }

  /** `Find` answers a node of the subtree holding `v`, and answers null exactly when no node holds it. */
  lemma {:induction false} FindCorrect<T>(U: set<ArrayTree<T>>, n: ArrayTree<T>, v: Option<T>)
    requires Wf(U) && n in U
    ensures Find(n, v, U) != null ==> Find(n, v, U) in Sub(n, U) && Find(n, v, U).content == v
    ensures Find(n, v, U) == null <==> forall x | x in Sub(n, U) :: x.content != v
    decreases Sub(n, U), 1, 0
  {
    if n.content != v {
      FindFromCorrect(U, n, v, 0);
      if Find(n, v, U) == null {
        forall x | x in Sub(n, U)
          ensures x.content != v
        {
          if x != n {
            var j := SubSplit(U, n, x);
            assert DownOk(n, U, null, 0);
          }
        }
      }
    }
  }

  /** `FindFrom` answers a node below slots `i..` holding `v`, and null exactly when none holds it. */
  lemma {:induction false} FindFromCorrect<T>(U: set<ArrayTree<T>>, n: ArrayTree<T>, v: Option<T>, i: int)
    requires Wf(U) && n in U && 0 <= i <= n.used
    ensures forall j | i <= j < n.used :: j < |n.children| && n.children[j] != null
    ensures FindFrom(n, v, i, U) != null ==> FindFrom(n, v, i, U) in Sub(n, U) && FindFrom(n, v, i, U).content == v
    ensures FindFrom(n, v, i, U) == null <==>
              forall j, x | i <= j < n.used && x in Sub(n.children[j], U) :: x.content != v
    decreases Sub(n, U), 0, n.used - i
  {
    assert DownOk(n, U, null, 0);
    if i < n.used {
      SubOfSlot(U, null, 0, n, i);
      var c := n.children[i];
      FindCorrect(U, c, v);
      FindFromCorrect(U, n, v, i + 1);
    }
  }
}
