/**
 * `Tree<T>`: the plain array-backed tree node. It has the same growable child
 * buffer as `ArrayTree`, but no parent links and no cycle checks. Its array
 * constructors and `setChildren` adopt the caller's array itself, so the buffer
 * is a real `array` that other code may share.
 */
module Trees {
  import opened Wrappers

  class Tree<T> {
    /** `Object[] children`: missing (`null`) until the first `addChild`, unless an array was handed in. */
    var children: array?<Tree?<T>>
    var capacity: int
    var used: int
    var content: Option<T>

    /**
     * The buffer is missing and nothing is used, or its length is the capacity and
     * the used slots come first.
     */
    ghost predicate Valid()
      reads this
    {
      if children == null then used == 0 && capacity == 0 else 0 <= used <= capacity == children.Length
    }

    /** The used slots, in order. */
    ghost function Contents(): seq<Tree?<T>>
      requires Valid()
      reads this, children
    {
      if children == null then [] else children[..used]
    }

    /** `new Tree<>(content)` and `new Tree<>()`: no buffer and no children. */
    constructor (content: Option<T>)
      ensures Valid() && Contents() == [] && children == null && this.content == content
    {
      this.content := content;
      children := null;
      capacity := 0;
      used := 0;
    }

    /**
     * `new Tree<>(content, children)` and `new Tree<>(children)`: the given array
     * itself becomes the buffer, and every slot of it counts as used.
     */
    constructor WithArray(content: Option<T>, kids: array<Tree?<T>>)
      ensures children == kids && capacity == used == kids.Length && this.content == content
      ensures Valid() && Contents() == kids[..]
    {
      this.content := content;
      children := kids;
      capacity := kids.Length;
      used := kids.Length;
    }

    /**
     * `addChild` with the growth rule `ArrayTree` uses: the node takes slot
     * `used`; a full buffer is first replaced by a copy with one slot (when it is
     * missing or empty) or twice as many.
     */
    method AddChild(t: Tree?<T>)
      requires Valid()
      modifies this`used, this`children, this`capacity, children
      ensures Valid() && Contents() == old(Contents()) + [t]
      ensures capacity == if old(used) < old(capacity) then old(capacity) else if old(capacity) == 0 then 1 else 2 * old(capacity)
      ensures old(used) < old(capacity) ==> children == old(children) && children[..] == old(children[..])[old(used) := t]
      ensures old(used) == old(capacity) ==> fresh(children) && forall i | used <= i < capacity :: children[i] == null
      ensures old(used) == old(capacity) && old(children) != null ==> old(children)[..] == old(children[..])
    {
      var newId := used;
      used := used + 1;
      if used > capacity {
        var newCapacity := if children == null || capacity == 0 then 1 else capacity * 2;
        children := Copied(children, capacity, newCapacity);
        capacity := newCapacity;
      }
      children[newId] := t;
    }

    /**
     * `addChild` as written: the new capacity is 1 only for a missing buffer, so
     * a full buffer of length 0 (one handed in as an empty array) "grows" to length
     * 0 and the write to slot 0 throws `ArrayIndexOutOfBoundsException`, after
     * `used` has already been incremented. `thrown` reports that exception.
     */
    method AddChildAsWritten(t: Tree?<T>) returns (thrown: bool)
      requires Valid()
      modifies this`used, this`children, this`capacity, children
      ensures thrown <==> old(children != null && capacity == 0)
      ensures !thrown ==> Valid() && Contents() == old(Contents()) + [t]
      ensures !thrown ==>
                capacity == if old(used) < old(capacity) then old(capacity) else if old(children) == null then 1 else 2 * old(capacity)
      ensures !thrown && old(used) < old(capacity) ==> children == old(children) && children[..] == old(children[..])[old(used) := t]
      ensures !thrown && old(used) == old(capacity) ==> fresh(children) && forall i | used <= i < capacity :: children[i] == null
      ensures old(used) == old(capacity) && old(children) != null ==> old(children)[..] == old(children[..])
      ensures thrown ==> used == 1 && capacity == 0 && children != null && children.Length == 0 && !Valid()
    {
      var newId := used;
      used := used + 1;
      if used > capacity {
        var newCapacity := if children == null then 1 else capacity * 2;
        children := Copied(children, capacity, newCapacity);
        capacity := newCapacity;
      }
      if newId >= children.Length {
        return true;
      }
      children[newId] := t;
      thrown := false;
    }

    /** The copy loop of `addChild`: a fresh array of `newCapacity` slots that starts with the first `count` slots of `src`. */
    static method Copied(src: array?<Tree?<T>>, count: int, newCapacity: int) returns (dst: array<Tree?<T>>)
      requires 0 <= count <= newCapacity && (src == null ==> count == 0) && (src != null ==> count <= src.Length)
      ensures fresh(dst) && dst.Length == newCapacity
      ensures src != null ==> dst[..count] == src[..count]
      ensures forall i | count <= i < newCapacity :: dst[i] == null
    {
      dst := new Tree?<T>[newCapacity](_ => null);
      if src != null {
        for i := 0 to count
          invariant dst[..i] == src[..i]
          invariant forall j | count <= j < newCapacity :: dst[j] == null
        {
          dst[i] := src[i];
        }
      }
    }

    /**
     * `removeChild(int)` as evidently intended: the child in slot `index` goes,
     * the later ones move one slot to the left, and the freed slot is cleared.
     */
    method RemoveChild(index: int)
      requires Valid() && 0 <= index < used
      modifies this`used, children
      ensures Valid() && children == old(children) && capacity == old(capacity)
      ensures Contents() == old(Contents()[..index] + Contents()[index + 1..])
      ensures children[used] == null && children[old(used)..] == old(children[used..])
    {
      used := used - 1;
      if index != used {
        ShiftLeft(children, index, used);
      }
      children[used] := null;
    }

    /**
     * `removeChild(int)` as written: the last used slot is cleared before the
     * shift, so only removing the last child removes the requested one. For the
     * second-to-last the shift is skipped (the guard reads the decremented `used`)
     * and the requested child stays while the last goes; for an earlier index the
     * shift pulls the cleared slot in, so the last child is lost and a `null`
     * takes the last used slot.
     */
    method RemoveChildAsWritten(index: int)
      requires Valid() && 0 <= index < used
      modifies this`used, children
      ensures Valid() && children == old(children) && capacity == old(capacity) && used == old(used) - 1
      ensures children[used] == null && children[..index] == old(children[..index])
      ensures children[old(used)..] == old(children[used..])
      ensures index == old(used) - 1 ==> Contents() == old(Contents()[..index] + Contents()[index + 1..])
      ensures index == old(used) - 2 ==> Contents() == old(Contents()[..used - 1])
      ensures index < old(used) - 2 ==>
                Contents() == old(Contents()[..index] + Contents()[index + 1..used - 1]) + [null]
      ensures index < old(used) - 1 && old(children[used - 1]) != null && old(children[used - 1]) !in old(Contents()[..used - 1])
              ==> old(children[used - 1]) !in Contents()
    {
      ghost var before := children[..used];
      children[used - 1] := null;
      used := used - 1;
      if index != used - 1 {
        ShiftLeft(children, index, used);
        assert index < used ==> children[..used] == before[..index] + before[index + 1..used] + [null];
      }
    }

    /** The shift loop of `removeChild`: slots `from..to-1` take the node of the next slot; slot `to` keeps its own. */
    static method ShiftLeft(a: array<Tree?<T>>, from: int, to: int)
      requires 0 <= from <= to < a.Length
      modifies a
      ensures a[..] == old(a[..from] + a[from + 1..to + 1] + a[to..])
    {
      for i := from to to
        invariant a[..from] == old(a[..from]) && a[i..] == old(a[i..])
        invariant a[from..i] == old(a[from + 1..i + 1])
      {
        a[i] := a[i + 1];
      }
    }

    /** `setChild`: slot `id` is overwritten and nothing else changes. */
    method SetChild(id: int, t: Tree?<T>)
      requires Valid() && 0 <= id < used
      modifies children
      ensures Valid() && Contents() == old(Contents())[id := t]
      ensures children[..] == old(children[..])[id := t]
    {
      children[id] := t;
    }

    /** `getChild`: the node in used slot `id`. */
    method GetChild(id: int) returns (c: Tree?<T>)
      requires Valid() && 0 <= id < used
      ensures c == Contents()[id]
    {
      c := children[id];
    }

    /** `getChildren`: a fresh array holding exactly the used slots. */
    method GetChildren() returns (r: array<Tree?<T>>)
      requires Valid()
      ensures fresh(r) && r[..] == Contents()
    {
      r := new Tree?<T>[used](_ => null);
      for i := 0 to used
        invariant r[..i] == Contents()[..i]
      {
        r[i] := children[i];
      }
    }

    /**
     * `setChildren`: the given array itself becomes the buffer, while `used` and
     * `capacity` keep their values, so the node stays valid exactly when the
     * array is as long as the old capacity.
     */
    method SetChildren(kids: array?<Tree?<T>>)
      modifies this`children
      ensures children == kids && used == old(used) && capacity == old(capacity)
      ensures old(Valid()) && kids != null ==> (Valid() <==> kids.Length == capacity)
      ensures old(Valid()) && kids == null ==> (Valid() <==> used == 0 && capacity == 0)
    {
      children := kids;
    }
  }
}
