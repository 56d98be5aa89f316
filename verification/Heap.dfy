/** The addressable binary heap. Nodes live at fixed addresses (their handles); heap slots hold addresses, and
    each node remembers the slot it is in. Slot 0 is not in use, so address 0 is never a handle. */
module Heap {
  import opened Options

  datatype Node<V> = Node(index: nat, val: V)

  /** The order of the heap: by feature, smallest first or largest first. */
  datatype Order<!V> = Order(minHeap: bool, feature: V -> int) {
    /** Compare_ */
    predicate Before(a: V, b: V) {
      if minHeap then feature(a) < feature(b) else feature(a) > feature(b)
    }
  }

  // ---------------------------------------------------------------- slots

  /** items is a permutation of the addresses of `size` nodes that leaves slot 0 alone. */
  ghost predicate Slots(items: seq<nat>, size: nat) {
    |items| == size && 0 < size && items[0] == 0 &&
    (forall i :: 0 <= i < size ==> items[i] < size) &&
    (forall i, j :: 0 <= i < j < size ==> items[i] != items[j])
  }

  function Swap(items: seq<nat>, i: nat, j: nat): (r: seq<nat>)
    requires i < |items| && j < |items|
  {
    items[i := items[j]][j := items[i]]
  }

  /** The handles in slots 1 to n. */
  ghost function Live(items: seq<nat>, n: nat): (s: set<nat>)
    requires n < |items|
    ensures forall h :: h in s <==> exists i :: 1 <= i <= n && items[i] == h
  {
    set i | 1 <= i <= n :: items[i]
  }

  lemma SwapKeeps(items: seq<nat>, n: nat, i: nat, j: nat)
    requires Slots(items, |items|) && n < |items| && 1 <= i <= n && 1 <= j <= n
    ensures Slots(Swap(items, i, j), |items|) && Live(Swap(items, i, j), n) == Live(items, n)
  {
    var s := Swap(items, i, j);
    forall h ensures h in Live(s, n) <==> h in Live(items, n) {
      if h in Live(items, n) {
        var k :| 1 <= k <= n && items[k] == h;
        assert s[if k == i then j else if k == j then i else k] == h;
      }
    }
  }

  lemma LiveSame(a: seq<nat>, b: seq<nat>, n: nat)
    requires n < |a| && n < |b| && forall i :: 1 <= i <= n ==> a[i] == b[i]
    ensures Live(a, n) == Live(b, n)
  {
    forall h ensures h in Live(a, n) <==> h in Live(b, n) {
      if h in Live(a, n) { var i :| 1 <= i <= n && a[i] == h; assert b[i] == h; }
      if h in Live(b, n) { var i :| 1 <= i <= n && b[i] == h; assert a[i] == h; }
    }
  }

  lemma LiveGrows(items: seq<nat>, n: nat)
    requires n + 1 < |items|
    ensures Live(items, n + 1) == Live(items, n) + {items[n + 1]}
  {
  }

  /** Slot i does not come before slot `above`. */
  predicate Fits<V>(ord: Order<V>, items: seq<nat>, nodes: seq<Node<V>>, i: nat, above: nat)
    requires i < |items| && above < |items| && items[i] < |nodes| && items[above] < |nodes|
  {
    !ord.Before(nodes[items[i]].val, nodes[items[above]].val)
  }

  /** Slot i does not come before its parent. */
  predicate Under<V>(ord: Order<V>, items: seq<nat>, nodes: seq<Node<V>>, i: nat)
    requires i < |items| && items[i] < |nodes| && items[i / 2] < |nodes|
  {
    Fits(ord, items, nodes, i, i / 2)
  }

  /** Slot i does not come before the parent of its parent. */
  predicate Across<V>(ord: Order<V>, items: seq<nat>, nodes: seq<Node<V>>, i: nat)
    requires i < |items| && items[i] < |nodes| && items[i / 2 / 2] < |nodes|
  {
    Fits(ord, items, nodes, i, i / 2 / 2)
  }

  /** Heap order on slots 1 to n, except at slot `hole`: not against its parent when `up`, not against its
      children when `down`. Across the hole, its children fit under its parent. */
  ghost predicate Heaped<V>(ord: Order<V>, items: seq<nat>, nodes: seq<Node<V>>, n: nat, hole: nat, up: bool,
                            down: bool)
    requires Slots(items, |nodes|) && n < |items|
  {
    (forall i :: 2 <= i <= n && !(up && i == hole) && !(down && i / 2 == hole) ==> Under(ord, items, nodes, i)) &&
    (forall i :: 4 <= i <= n && i / 2 == hole ==> Across(ord, items, nodes, i))
  }

  ghost predicate Indexed<V>(items: seq<nat>, nodes: seq<Node<V>>, n: nat, hole: nat)
    requires Slots(items, |nodes|) && n < |items|
  {
    forall i :: 1 <= i <= n && i != hole ==> nodes[items[i]].index == i
  }

  ghost predicate SameVals<V>(a: seq<Node<V>>, b: seq<Node<V>>) {
    |a| == |b| && forall i :: 0 <= i < |a| ==> a[i].val == b[i].val
  }

  /** In a heap, the first slot comes before no other: following parents from any slot leads to it. */
  lemma {:induction false} FirstIsMin<V>(ord: Order<V>, items: seq<nat>, nodes: seq<Node<V>>, n: nat, i: nat)
    requires Slots(items, |nodes|) && n < |items| && 1 <= i <= n
    requires Heaped(ord, items, nodes, n, 0, false, false)
    ensures Fits(ord, items, nodes, i, 1)
  {
    if 1 < i {
      FirstIsMin(ord, items, nodes, n, i / 2);
      assert Under(ord, items, nodes, i);
    }
  }

  /** Handle to value, for the nodes in slots 1 to n. */
  ghost function ContentsOf<V>(items: seq<nat>, nodes: seq<Node<V>>, n: nat): (m: map<nat, V>)
    requires Slots(items, |nodes|) && n < |items|
  {
    map h | h in Live(items, n) :: nodes[h].val
  }

  predicate InSlot<V>(items: seq<nat>, nodes: seq<Node<V>>, n: nat, h: nat) {
    h < |nodes| && 1 <= nodes[h].index <= n && nodes[h].index < |items| && items[nodes[h].index] == h
  }

  ghost function Held<V>(items: seq<nat>, nodes: seq<Node<V>>, n: nat): (m: map<nat, V>) {
    map h: nat | h < |nodes| && InSlot(items, nodes, n, h) :: nodes[h].val
  }

  /** When every slot's node names it, the two views of the contents agree. */
  lemma HeldIsContents<V>(items: seq<nat>, nodes: seq<Node<V>>, n: nat)
    requires Slots(items, |nodes|) && n < |items| && Indexed(items, nodes, n, 0)
    ensures Held(items, nodes, n) == ContentsOf(items, nodes, n) && 0 !in Held(items, nodes, n)
  {
    forall h ensures h in Held(items, nodes, n) <==> h in Live(items, n) {
      if h in Live(items, n) { SlotOf(items, nodes, n, h); }
    }
  }

  // ---------------------------------------------------------------- one step of a sift

  /** Moving the parent down into the hole. */
  lemma StepUp<V>(ord: Order<V>, items: seq<nat>, nodes: seq<Node<V>>, n: nat, hole: nat)
    requires Slots(items, |nodes|) && n < |items| && 1 < hole <= n
    requires Heaped(ord, items, nodes, n, hole, true, false)
    requires ord.Before(nodes[items[hole]].val, nodes[items[hole / 2]].val)
    ensures Slots(Swap(items, hole, hole / 2), |nodes|) && Live(Swap(items, hole, hole / 2), n) == Live(items, n)
    ensures Heaped(ord, Swap(items, hole, hole / 2), nodes, n, hole / 2, true, false)
  {
    SwapKeeps(items, n, hole, hole / 2);
    var s := Swap(items, hole, hole / 2);
    var top := hole / 2;
    assert Under(ord, items, nodes, top) || top == 1;
    forall i | 2 <= i <= n && i != top ensures Under(ord, s, nodes, i) {
      if i == hole {
      } else if i / 2 == hole {
        assert Across(ord, items, nodes, i);
      } else if i / 2 == top {
        assert Under(ord, items, nodes, i);
      } else {
        assert Under(ord, items, nodes, i);
        assert s[i] == items[i] && s[i / 2] == items[i / 2];
      }
    }
    forall i | 4 <= i <= n && i / 2 == top ensures Across(ord, s, nodes, i) {
      if i != hole { assert Under(ord, items, nodes, i); }
    }
  }

  /** Moving the smaller child up into the hole. */
  lemma StepDown<V>(ord: Order<V>, items: seq<nat>, nodes: seq<Node<V>>, n: nat, hole: nat, child: nat)
    requires Slots(items, |nodes|) && n < |items| && 1 <= hole && 2 * hole <= child <= 2 * hole + 1 && child <= n
    requires Heaped(ord, items, nodes, n, hole, false, true)
    requires !ord.Before(nodes[items[hole]].val, nodes[items[child]].val)
    requires forall i :: 2 * hole <= i <= 2 * hole + 1 && i <= n ==> Fits(ord, items, nodes, i, child)
    ensures Slots(Swap(items, hole, child), |nodes|) && Live(Swap(items, hole, child), n) == Live(items, n)
    ensures Heaped(ord, Swap(items, hole, child), nodes, n, child, false, true)
  {
    SwapKeeps(items, n, hole, child);
    var s := Swap(items, hole, child);
    forall i | 2 <= i <= n && i / 2 != child ensures Under(ord, s, nodes, i) {
      if i / 2 == hole {
        assert Fits(ord, items, nodes, i, child);
      } else if i == hole {
        assert Across(ord, items, nodes, child);
      } else {
        assert Under(ord, items, nodes, i);
      }
    }
    forall i | 4 <= i <= n && i / 2 == child ensures Across(ord, s, nodes, i) {
      assert Under(ord, items, nodes, i);
    }
  }

  /** The child chosen by the sift comes after no other child; a value before it is before them all. */
  lemma FirstChild<V>(ord: Order<V>, items: seq<nat>, nodes: seq<Node<V>>, n: nat, hole: nat, child: nat)
    requires Slots(items, |nodes|) && n < |items| && 1 <= hole && 2 * hole <= n
    requires child == if 2 * hole == n || ord.Before(nodes[items[2 * hole]].val, nodes[items[2 * hole + 1]].val)
                      then 2 * hole else 2 * hole + 1
    ensures forall i :: 2 * hole <= i <= 2 * hole + 1 && i <= n ==> Fits(ord, items, nodes, i, child)
    ensures ord.Before(nodes[items[hole]].val, nodes[items[child]].val) ==>
      forall i :: 2 <= i <= n && i / 2 == hole ==> Under(ord, items, nodes, i)
  {
    assert forall i :: 2 <= i <= n && i / 2 == hole ==> i == 2 * hole || i == 2 * hole + 1;
  }

  // ---------------------------------------------------------------- the class

  class HeapBase<V> {
    const ord: Order<V>
    const blank: V                 // what a node holds before it is first used
    var numItems: nat
    var heapItems: seq<nat>
    var nodes: seq<Node<V>>

    ghost predicate Valid()
      reads this
    {
      Slots(heapItems, |nodes|) && numItems < |nodes| &&
      Indexed(heapItems, nodes, numItems, 0) &&
      Heaped(ord, heapItems, nodes, numItems, 0, false, false)
    }

    /** What the heap holds: handle to value. A handle is live when the slot its node names holds it. */
    ghost function Contents(): (m: map<nat, V>)
      reads this
    {
      Held(heapItems, nodes, numItems)
    }

    constructor (ord: Order<V>, initSize: nat, blank: V)
      requires 0 < initSize
      ensures Valid() && Contents() == map[] && 0 !in Contents() && this.ord == ord
    {
      this.ord := ord;
      this.blank := blank;
      numItems := 0;
      heapItems := seq(initSize, i => i);
      nodes := seq(initSize, _ => Node(0, blank));
    }

    /** The value that comes before no other, if there is one. */
    method Top() returns (r: Option<V>)
      requires Valid()
      ensures r.None? <==> Contents() == map[]
      ensures r.None? <==> numItems == 0
      ensures r.Some? ==> numItems != 0 && heapItems[1] in Contents() && Contents()[heapItems[1]] == r.value
      ensures r.Some? ==> forall h :: h in Contents() ==> !ord.Before(Contents()[h], r.value)
    {
      if numItems == 0 {
        return None;
      }
      r := Some(nodes[heapItems[1]].val);
      assert heapItems[1] in Contents();
      forall h | h in Contents() ensures !ord.Before(Contents()[h], r.value) {
        FirstIsMin(ord, heapItems, nodes, numItems, nodes[h].index);
      }
    }

    /** Doubles the container; the new slots hold new nodes. */
    method Resize()
      requires Valid()
      modifies this
      ensures Valid() && Contents() == old(Contents()) && numItems == old(numItems)
      ensures |heapItems| == 2 * old(|heapItems|)
    {
      var size := |heapItems|;
      ghost var n := numItems;
      heapItems := heapItems + seq(size, i requires 0 <= i => size + i);
      nodes := nodes + seq(size, _ => Node(0, blank));
      GrowKeeps(ord, old(heapItems), heapItems, old(nodes), nodes, n);
      GrowContents(old(heapItems), heapItems, old(nodes), nodes, n);
      HeldIsContents(old(heapItems), old(nodes), n);
      HeldIsContents(heapItems, nodes, n);
    }

    method Insert(val: V) returns (sign: nat)
      requires Valid()
      modifies this
      ensures Valid() && sign !in old(Contents()) && sign != 0
      ensures Contents() == old(Contents())[sign := val]
    {
      if numItems + 1 == |heapItems| {
        Resize();
      }
      ghost var items0, nodes0, n0 := heapItems, nodes, numItems;
      numItems := numItems + 1;
      sign := heapItems[numItems];
      nodes := nodes[sign := nodes[sign].(val := val)];
      InsertKeeps(ord, items0, nodes0, nodes, n0, sign);
      ghost var nodes1 := nodes;
      SiftUp(numItems);
      InsertContents(items0, nodes0, n0, nodes1, val);
      ContentsSame(items0, nodes1, heapItems, nodes, numItems);
      HeldIsContents(items0, nodes0, n0);
      HeldIsContents(heapItems, nodes, numItems);
    }

    /** Shifts parents down while the node at `start` comes before them, then drops it in the hole. */
    method SiftUp(start: nat)
      requires Slots(heapItems, |nodes|) && numItems < |nodes| && 1 <= start <= numItems
      requires Indexed(heapItems, nodes, numItems, start)
      requires Heaped(ord, heapItems, nodes, numItems, start, true, false)
      modifies this
      ensures Valid() && numItems == old(numItems) && SameVals(nodes, old(nodes))
      ensures Live(heapItems, numItems) == old(Live(heapItems, numItems))
    {
      var node := heapItems[start];
      var iter := start;
      ghost var v := heapItems;      // the slots, with the node put in the hole
      while 1 < iter && ord.Before(nodes[node].val, nodes[heapItems[iter / 2]].val)
        invariant 1 <= iter <= numItems == old(numItems) && SameVals(nodes, old(nodes))
        invariant |heapItems| == |nodes| && v == heapItems[iter := node] && node < |nodes|
        invariant forall i :: 0 <= i < |nodes| && i != iter ==> heapItems[i] == v[i] < |nodes|
        invariant Slots(v, |nodes|) && Live(v, numItems) == old(Live(heapItems, numItems))
        invariant Indexed(v, nodes, numItems, iter)
        invariant Heaped(ord, v, nodes, numItems, iter, true, false)
        decreases iter
      {
        StepUp(ord, v, nodes, numItems, iter);
        ShiftKeeps(ord, heapItems, nodes, numItems, iter, iter / 2, node, true, false);
        v := Swap(v, iter, iter / 2);
        heapItems := heapItems[iter := heapItems[iter / 2]];
        nodes := nodes[heapItems[iter] := nodes[heapItems[iter]].(index := iter)];
        iter := iter / 2;
      }
      assert iter == 1 || Under(ord, v, nodes, iter);
      Settle(iter, node, true, false);
    }

    /** Shifts children up while the node at `start` does not come before them, then drops it in the hole. */
    method SiftDown(start: nat)
      requires Slots(heapItems, |nodes|) && numItems < |nodes| && 1 <= start <= numItems
      requires Indexed(heapItems, nodes, numItems, start)
      requires Heaped(ord, heapItems, nodes, numItems, start, false, true)
      modifies this
      ensures Valid() && numItems == old(numItems) && SameVals(nodes, old(nodes))
      ensures Live(heapItems, numItems) == old(Live(heapItems, numItems))
    {
      var node := heapItems[start];
      var pos, iter := start, 2 * start;
      ghost var v := heapItems;
      while iter <= numItems
        invariant 1 <= pos <= numItems == old(numItems) && iter == 2 * pos && SameVals(nodes, old(nodes))
        invariant |heapItems| == |nodes| && v == heapItems[pos := node] && node < |nodes|
        invariant forall i :: 0 <= i < |nodes| && i != pos ==> heapItems[i] == v[i] < |nodes|
        invariant Slots(v, |nodes|) && Live(v, numItems) == old(Live(heapItems, numItems))
        invariant Indexed(v, nodes, numItems, pos)
        invariant Heaped(ord, v, nodes, numItems, pos, false, true)
        decreases numItems - pos
      {
        var min := if iter == numItems || ord.Before(nodes[heapItems[iter]].val, nodes[heapItems[iter + 1]].val)
                   then iter else iter + 1;
        assert min <= numItems && v[min] == heapItems[min] && v[pos] == node;
        FirstChild(ord, v, nodes, numItems, pos, min);
        if ord.Before(nodes[node].val, nodes[heapItems[min]].val) {
          break;
        }
        StepDown(ord, v, nodes, numItems, pos, min);
        ShiftKeeps(ord, heapItems, nodes, numItems, pos, min, node, false, true);
        v := Swap(v, pos, min);
        heapItems := heapItems[pos := heapItems[min]];
        nodes := nodes[heapItems[pos] := nodes[heapItems[pos]].(index := pos)];
        pos := min;
        iter := 2 * pos;
      }
      assert forall i :: 2 <= i <= numItems && i / 2 == pos ==> Under(ord, v, nodes, i);
      Settle(pos, node, false, true);
    }

    /** Drops the node in the hole and records its slot. */
    method Settle(hole: nat, node: nat, ghost up: bool, ghost down: bool)
      requires |heapItems| == |nodes| && 1 <= hole <= numItems < |nodes| && node < |nodes|
      requires Slots(heapItems[hole := node], |nodes|) && Indexed(heapItems[hole := node], nodes, numItems, hole)
      requires Heaped(ord, heapItems[hole := node], nodes, numItems, hole, up, down)
      requires up && 1 < hole ==> Under(ord, heapItems[hole := node], nodes, hole)
      requires down ==> forall i :: 2 <= i <= numItems && i / 2 == hole ==>
               Under(ord, heapItems[hole := node], nodes, i)
      modifies this
      ensures Valid() && numItems == old(numItems) && SameVals(nodes, old(nodes))
      ensures heapItems == old(heapItems)[hole := node]
    {
      heapItems := heapItems[hole := node];
      ghost var nodes0 := nodes;
      assert Heaped(ord, heapItems, nodes0, numItems, 0, false, false) by {
        forall i | 2 <= i <= numItems ensures Under(ord, heapItems, nodes0, i) {
          if !(up && i == hole) && !(down && i / 2 == hole) { assert Under(ord, heapItems, nodes0, i); }
        }
      }
      nodes := nodes[node := nodes[node].(index := hole)];
      assert forall i :: 1 <= i <= numItems && i != hole ==> heapItems[i] != heapItems[hole];
      HeapedSameVals(ord, heapItems, nodes0, nodes, numItems, 0, false, false);
    }

    /** AdjustNode_: restores the heap after the value in one slot has changed. */
    method AdjustNode(index: nat)
      requires Slots(heapItems, |nodes|) && numItems < |nodes| && 1 <= index
      requires Indexed(heapItems, nodes, numItems, 0)
      requires Heaped(ord, heapItems, nodes, numItems, index, true, true)
      modifies this
      ensures Valid() && numItems == old(numItems) && SameVals(nodes, old(nodes))
      ensures Live(heapItems, numItems) == old(Live(heapItems, numItems))
    {
      if index > numItems {
        return;
      }
      if 1 < index && ord.Before(nodes[heapItems[index]].val, nodes[heapItems[index / 2]].val) {
        assert Heaped(ord, heapItems, nodes, numItems, index, true, false) by {
          forall i | 2 <= i <= numItems && i / 2 == index ensures Under(ord, heapItems, nodes, i) {
            assert Across(ord, heapItems, nodes, i);
          }
        }
        SiftUp(index);
      } else {
        assert 1 < index ==> Under(ord, heapItems, nodes, index);
        SiftDown(index);
      }
    }

    method Update(sign: nat, val: V)
      requires Valid() && sign in Contents()
      modifies this
      ensures Valid() && Contents() == old(Contents())[sign := val]
    {
      ghost var i := nodes[sign].index;
      HeldIsContents(heapItems, nodes, numItems);
      ghost var nodes0 := nodes;
      nodes := nodes[sign := nodes[sign].(val := val)];
      HeapedExcept(ord, heapItems, nodes0, nodes, numItems, i);
      UpdateContents(heapItems, nodes0, nodes, numItems, sign, val);
      ghost var items1, nodes1 := heapItems, nodes;
      AdjustNode(nodes[sign].index);
      ContentsSame(items1, nodes1, heapItems, nodes, numItems);
      HeldIsContents(heapItems, nodes, numItems);
    }

    method Erase(sign: nat)
      requires Valid() && (sign in Contents() || numItems == 0)
      modifies this
      ensures Valid() && Contents() == old(Contents()) - {sign}
      ensures numItems == if old(numItems) == 0 then 0 else old(numItems) - 1
    {
      if numItems == 0 {
        return;
      }
      ghost var n := numItems;
      HeldIsContents(heapItems, nodes, n);
      var index := nodes[sign].index;
      ghost var items0, nodes0 := heapItems, nodes;
      heapItems := heapItems[index := heapItems[numItems]];
      heapItems := heapItems[numItems := sign];
      assert heapItems == Swap(items0, index, n);
      numItems := numItems - 1;
      nodes := nodes[heapItems[index] := nodes[heapItems[index]].(index := index)];
      EraseKeeps(ord, items0, nodes0, nodes, n, index);
      ghost var items1, nodes1 := heapItems, nodes;
      AdjustNode(index);
      ContentsSame(items1, nodes1, heapItems, nodes, numItems);
      HeldIsContents(heapItems, nodes, numItems);
    }

    /** The handle in the first slot: its value comes after no other. */
    ghost predicate IsLeast(sign: nat)
      requires Valid()
      reads this
    {
      sign in Contents() && forall h :: h in Contents() ==> !ord.Before(Contents()[h], Contents()[sign])
    }

    lemma FirstIsLeast()
      requires Valid() && 0 < numItems
      ensures IsLeast(heapItems[1])
    {
      assert heapItems[1] in Contents();
      forall h | h in Contents() ensures !ord.Before(Contents()[h], Contents()[heapItems[1]]) {
        FirstIsMin(ord, heapItems, nodes, numItems, nodes[h].index);
      }
    }

    /** Erases an entry that comes after no other. */
    method Pop() returns (ghost sign: nat)
      requires Valid() && 1 < |heapItems|
      modifies this
      ensures Valid() && Contents() == old(Contents()) - {sign}
      ensures old(Contents()) != map[] ==> old(IsLeast(sign))
      ensures numItems == if old(numItems) == 0 then 0 else old(numItems) - 1
    {
      sign := heapItems[1];
      if 0 < numItems { FirstIsLeast(); }
      assert numItems == 0 ==> Contents() == map[];
      Erase(heapItems[1]);
    }
  }

  // ---------------------------------------------------------------- changing nodes

  lemma HeapedSameVals<V>(ord: Order<V>, items: seq<nat>, a: seq<Node<V>>, b: seq<Node<V>>, n: nat, hole: nat,
                          up: bool, down: bool)
    requires Slots(items, |a|) && n < |items| && SameVals(a, b)
    requires Heaped(ord, items, a, n, hole, up, down)
    ensures Heaped(ord, items, b, n, hole, up, down)
  {
    forall i | 2 <= i <= n && Under(ord, items, a, i) ensures Under(ord, items, b, i) {}
    forall i | 4 <= i <= n && Across(ord, items, a, i) ensures Across(ord, items, b, i) {}
  }

  /** A live handle is in the slot its node names. */
  lemma SlotOf<V>(items: seq<nat>, nodes: seq<Node<V>>, n: nat, h: nat)
    requires Slots(items, |nodes|) && n < |items| && Indexed(items, nodes, n, 0) && h in Live(items, n)
    ensures h < |nodes| && 1 <= nodes[h].index <= n && items[nodes[h].index] == h
  {
    var i :| 1 <= i <= n && items[i] == h;
  }

  /** Shifting the node of slot `from` into the hole moves the hole to `from`. */
  lemma ShiftKeeps<V>(ord: Order<V>, items: seq<nat>, nodes: seq<Node<V>>, n: nat, hole: nat, from: nat, node: nat,
                      up: bool, down: bool)
    requires |items| == |nodes| && 1 <= hole <= n < |items| && 1 <= from <= n && hole != from && node < |nodes|
    requires Slots(items[hole := node], |nodes|) && Slots(Swap(items[hole := node], hole, from), |nodes|)
    requires Indexed(items[hole := node], nodes, n, hole)
    requires Heaped(ord, Swap(items[hole := node], hole, from), nodes, n, from, up, down)
    ensures items[from] < |nodes|
    ensures var items' := items[hole := items[from]];
            var nodes' := nodes[items[from] := nodes[items[from]].(index := hole)];
            var v' := Swap(items[hole := node], hole, from);
            v' == items'[from := node] && SameVals(nodes', nodes) &&
            Indexed(v', nodes', n, from) && Heaped(ord, v', nodes', n, from, up, down)
  {
    var v := items[hole := node];
    var v' := Swap(v, hole, from);
    assert v[from] == items[from] && v'[hole] == items[from];
    var nodes' := nodes[items[from] := nodes[items[from]].(index := hole)];
    forall i | 1 <= i <= n && i != from ensures nodes'[v'[i]].index == i {
      if i != hole { assert v'[i] == v[i] && v[i] != v[from]; }
    }
    HeapedSameVals(ord, v', nodes, nodes', n, from, up, down);
  }

  lemma ContentsSame<V>(items: seq<nat>, a: seq<Node<V>>, items': seq<nat>, b: seq<Node<V>>, n: nat)
    requires Slots(items, |a|) && Slots(items', |b|) && n < |items| && n < |items'| && SameVals(b, a)
    requires Live(items', n) == Live(items, n)
    ensures ContentsOf(items', b, n) == ContentsOf(items, a, n)
  {
  }

  lemma UpdateContents<V>(items: seq<nat>, a: seq<Node<V>>, b: seq<Node<V>>, n: nat, sign: nat, val: V)
    requires Slots(items, |a|) && n < |items| && |a| == |b| && sign in Live(items, n)
    requires b == a[sign := a[sign].(val := val)] && Indexed(items, a, n, 0)
    ensures ContentsOf(items, b, n) == ContentsOf(items, a, n)[sign := val] && Indexed(items, b, n, 0)
  {
  }

  lemma InsertContents<V>(items: seq<nat>, a: seq<Node<V>>, n: nat, b: seq<Node<V>>, val: V)
    requires Slots(items, |a|) && n + 1 < |items| && |b| == |a|
    requires b[items[n + 1]].val == val && forall h :: 0 <= h < |a| && h != items[n + 1] ==> a[h] == b[h]
    ensures items[n + 1] !in ContentsOf(items, a, n)
    ensures ContentsOf(items, b, n + 1) == ContentsOf(items, a, n)[items[n + 1] := val]
  {
    LiveGrows(items, n);
  }

  /** More nodes behind the heap change nothing in it. */
  lemma GrowKeeps<V>(ord: Order<V>, items: seq<nat>, items': seq<nat>, a: seq<Node<V>>, b: seq<Node<V>>, n: nat)
    requires Slots(items, |a|) && n < |items| && Slots(items', |b|) && |items| <= |items'|
    requires (forall i :: 0 <= i < |items| ==> items'[i] == items[i]) && (forall h :: 0 <= h < |a| ==> b[h] == a[h])
    requires Indexed(items, a, n, 0) && Heaped(ord, items, a, n, 0, false, false)
    ensures Indexed(items', b, n, 0) && Heaped(ord, items', b, n, 0, false, false)
  {
    forall i | 2 <= i <= n ensures Under(ord, items', b, i) {
      assert Under(ord, items, a, i);
      UnderSame(ord, items, items', a, b, i);
    }
  }

  lemma UnderSame<V>(ord: Order<V>, items: seq<nat>, items': seq<nat>, a: seq<Node<V>>, b: seq<Node<V>>, i: nat)
    requires i < |items| <= |items'| && items[i] < |a| <= |b| && items[i / 2] < |a| && Under(ord, items, a, i)
    requires items'[i] == items[i] && items'[i / 2] == items[i / 2] && b[items[i]] == a[items[i]] &&
             b[items[i / 2]] == a[items[i / 2]]
    ensures Under(ord, items', b, i)
  {
  }

  lemma GrowContents<V>(items: seq<nat>, items': seq<nat>, a: seq<Node<V>>, b: seq<Node<V>>, n: nat)
    requires Slots(items, |a|) && n < |items| && Slots(items', |b|) && |items| <= |items'|
    requires (forall i :: 0 <= i < |items| ==> items'[i] == items[i]) && (forall h :: 0 <= h < |a| ==> b[h] == a[h])
    ensures ContentsOf(items', b, n) == ContentsOf(items, a, n)
  {
    LiveSame(items, items', n);
  }

  lemma HeapedExcept<V>(ord: Order<V>, items: seq<nat>, a: seq<Node<V>>, b: seq<Node<V>>, n: nat, k: nat)
    requires Slots(items, |a|) && 1 <= k <= n < |items| && |a| == |b|
    requires Heaped(ord, items, a, n, 0, false, false)
    requires forall h :: 0 <= h < |a| && h != items[k] ==> a[h] == b[h]
    ensures Heaped(ord, items, b, n, k, true, true)
  {
    forall i | 2 <= i <= n && i != k && i / 2 != k ensures Under(ord, items, b, i) {
      assert Under(ord, items, a, i);
    }
    forall i | 4 <= i <= n && i / 2 == k ensures Across(ord, items, b, i) {
      assert Under(ord, items, a, i) && Under(ord, items, a, i / 2);
    }
  }

  /** The first free node, given any value, only has to be compared with its parent. */
  lemma InsertKeeps<V>(ord: Order<V>, items: seq<nat>, a: seq<Node<V>>, b: seq<Node<V>>, n: nat, sign: nat)
    requires Slots(items, |a|) && n + 1 < |items| && |a| == |b| && items[n + 1] == sign
    requires Indexed(items, a, n, 0) && Heaped(ord, items, a, n, 0, false, false)
    requires forall h :: 0 <= h < |a| && h != sign ==> a[h] == b[h]
    ensures Indexed(items, b, n + 1, n + 1) && Heaped(ord, items, b, n + 1, n + 1, true, false)
  {
    forall i | 2 <= i <= n ensures Under(ord, items, b, i) {
      assert Under(ord, items, a, i);
      assert items[i] != items[n + 1] && items[i / 2] != items[n + 1];
    }
  }

  /** Moving the last node into slot k and dropping the node of slot k behind the heap. */
  lemma EraseKeeps<V>(ord: Order<V>, items: seq<nat>, a: seq<Node<V>>, b: seq<Node<V>>, n: nat, k: nat)
    requires Slots(items, |a|) && 1 <= k <= n < |items| && |a| == |b|
    requires Indexed(items, a, n, 0) && Heaped(ord, items, a, n, 0, false, false)
    requires b == a[items[n] := a[items[n]].(index := k)]
    ensures var s := Swap(items, k, n);
            Slots(s, |b|) && Indexed(s, b, n - 1, 0) && Heaped(ord, s, b, n - 1, k, true, true) &&
            Live(s, n - 1) == Live(items, n) - {items[k]} && SameVals(a, b) &&
            ContentsOf(s, b, n - 1) == ContentsOf(items, a, n) - {items[k]}
  {
    EraseSlots(items, a, b, n, k);
    EraseHeaped(ord, items, a, b, n, k);
  }

  lemma EraseSlots<V>(items: seq<nat>, a: seq<Node<V>>, b: seq<Node<V>>, n: nat, k: nat)
    requires Slots(items, |a|) && 1 <= k <= n < |items| && |a| == |b| && Indexed(items, a, n, 0)
    requires b == a[items[n] := a[items[n]].(index := k)]
    ensures var s := Swap(items, k, n);
            Slots(s, |b|) && Indexed(s, b, n - 1, 0) &&
            Live(s, n - 1) == Live(items, n) - {items[k]} &&
            ContentsOf(s, b, n - 1) == ContentsOf(items, a, n) - {items[k]}
  {
    SwapKeeps(items, n, k, n);
    var s := Swap(items, k, n);
    LiveGrows(s, n - 1);
    forall i | 1 <= i <= n - 1 ensures b[s[i]].index == i && s[i] != items[k] {
      assert i != k ==> items[i] != items[n] && items[i] != items[k];
      assert k != n ==> items[k] != items[n];
    }
  }

  lemma EraseHeaped<V>(ord: Order<V>, items: seq<nat>, a: seq<Node<V>>, b: seq<Node<V>>, n: nat, k: nat)
    requires Slots(items, |a|) && 1 <= k <= n < |items| && SameVals(a, b) && Slots(Swap(items, k, n), |b|)
    requires Heaped(ord, items, a, n, 0, false, false)
    ensures Heaped(ord, Swap(items, k, n), b, n - 1, k, true, true)
  {
    var s := Swap(items, k, n);
    assert forall i :: 0 <= i < n && i != k ==> s[i] == items[i];
    forall i | 2 <= i <= n - 1 && i != k && i / 2 != k ensures Under(ord, s, b, i) {
      assert Under(ord, items, a, i);
    }
    forall i | 4 <= i <= n - 1 && i / 2 == k ensures Across(ord, s, b, i) {
      assert Under(ord, items, a, i) && Under(ord, items, a, i / 2);
    }
  }
}
