/**
 * `ktu::list<T, U>` (`ktu/list.hpp`): a doubly linked list whose nodes are
 * indices into two parallel vectors, `values` and `nodes`.
 *
 * Slot `i` holds `values[i]` and the node `nodes[i]` with the slot indices
 * of its neighbours; `terminator`, the largest value of the index type
 * `U`, stands for "no neighbour". The order in which the slots are linked
 * is described by a ghost permutation `order` of `0 .. |nodes| - 1`, with
 * `pos` its inverse: `order[k]` is the slot at position `k`.
 */
module Lists {

  /** `node`: the previous and the next slot. */
  datatype Node = Node(prev: nat, next: nat)

  /** The link state: `nodes`, `head` and `tail`. */
  datatype Links = Links(nodes: seq<Node>, head: nat, tail: nat)

  /** The slot after position `k`, or the terminator after the last. */
  function NextAt(order: seq<nat>, k: nat, t: nat): nat
    requires k < |order|
  {
    if k + 1 < |order| then order[k + 1] else t
  }

  /** The slot before position `k`, or the terminator before the first. */
  function PrevAt(order: seq<nat>, k: nat, t: nat): nat
    requires k < |order|
  {
    if k > 0 then order[k - 1] else t
  }

  /** `order` and `pos` are inverse permutations of `0 .. |order| - 1`. */
  predicate Perm(order: seq<nat>, pos: seq<nat>)
  {
    |order| == |pos| &&
    (forall k :: 0 <= k < |order| ==> SlotAt(order, pos, k)) &&
    (forall i :: 0 <= i < |pos| ==> PosOf(order, pos, i))
  }

  /** The slot at position `k` has position `k`. */
  predicate SlotAt(order: seq<nat>, pos: seq<nat>, k: nat)
    requires k < |order|
  {
    order[k] < |pos| && pos[order[k]] == k
  }

  /** Slot `i` is at its position. */
  predicate PosOf(order: seq<nat>, pos: seq<nat>, i: nat)
    requires i < |pos|
  {
    pos[i] < |order| && order[pos[i]] == i
  }

  /** The links chain the slots of `order` in that order, from `head` to `tail`. */
  predicate Along(l: Links, t: nat, order: seq<nat>)
  {
    (if |order| == 0 then l.head == t && l.tail == t
     else l.head == order[0] && l.tail == order[|order| - 1] && l.head < |l.nodes| && l.tail < |l.nodes|) &&
    forall k :: 0 <= k < |order| ==> LinkAt(l, t, order, k)
  }

  /** The slot at position `k` is linked to its neighbours in `order`. */
  predicate LinkAt(l: Links, t: nat, order: seq<nat>, k: nat)
    requires k < |order|
  {
    order[k] < |l.nodes| && l.nodes[order[k]] == Node(PrevAt(order, k, t), NextAt(order, k, t))
  }

  /**
   * The list invariant: every slot is linked exactly once, in the order
   * `order`, and no slot index reaches the terminator.
   */
  predicate Linked(l: Links, t: nat, order: seq<nat>, pos: seq<nat>)
  {
    |l.nodes| <= t && |order| == |l.nodes| && Perm(order, pos) && Along(l, t, order)
  }

  /** Two positions hold two different slots. */
  lemma Distinct(order: seq<nat>, pos: seq<nat>, j: nat, k: nat)
    requires Perm(order, pos) && j < |order| && k < |order| && j != k
    ensures order[j] != order[k]
  {
    assert SlotAt(order, pos, j) && SlotAt(order, pos, k);
  }

  /** Every slot of `order` is below its length. */
  lemma SlotsInRange(order: seq<nat>, pos: seq<nat>)
    requires Perm(order, pos)
    ensures forall k :: 0 <= k < |order| ==> order[k] < |order|
  {
    forall k | 0 <= k < |order|
      ensures order[k] < |order|
    {
      assert SlotAt(order, pos, k);
    }
  }

  /** Where a node may point: a slot or the terminator. */
  predicate Bounded(x: Node, t: nat, n: nat)
  {
    (x.prev == t || x.prev < n) && (x.next == t || x.next < n)
  }

  /** The node of slot `i` of a linked list points at slots or at the terminator. */
  lemma NodeBounded(l: Links, t: nat, order: seq<nat>, pos: seq<nat>, i: nat)
    requires Linked(l, t, order, pos) && i < |l.nodes|
    ensures Bounded(l.nodes[i], t, |l.nodes|)
    ensures pos[i] < |order| && order[pos[i]] == i && LinkAt(l, t, order, pos[i])
  {
    assert PosOf(order, pos, i);
    var k := pos[i];
    assert LinkAt(l, t, order, k);
    if k > 0 {
      assert SlotAt(order, pos, k - 1);
    }
    if k + 1 < |order| {
      assert SlotAt(order, pos, k + 1);
    }
  }

  /** `0, 1, .., n - 1`. */
  function Iota(n: nat): (r: seq<nat>)
    ensures |r| == n && forall i :: 0 <= i < n ==> r[i] == i
  {
    seq(n, i => i)
  }

  /**
   * The slots met by following `next` (or `prev`) from slot `i` for at
   * most `n` steps, stopping at the terminator or any index past the nodes.
   */
  function Follow(nodes: seq<Node>, i: nat, n: nat, forward: bool): (r: seq<nat>)
    ensures |r| <= n
    decreases n
  {
    if n == 0 || i >= |nodes| then []
    else [i] + Follow(nodes, if forward then nodes[i].next else nodes[i].prev, n - 1, forward)
  }

  /** From position `k`, following `next` visits the rest of `order`. */
  lemma {:induction false} FollowFrom(l: Links, t: nat, order: seq<nat>, k: nat)
    requires Along(l, t, order) && k < |order| && t >= |l.nodes|
    ensures Follow(l.nodes, order[k], |order| - k, true) == order[k..]
    decreases |order| - k
  {
    assert LinkAt(l, t, order, k);
    if k + 1 < |order| {
      FollowFrom(l, t, order, k + 1);
      assert order[k..] == [order[k]] + order[k + 1..];
    }
  }

  /**
   * Iteration from `begin()`: following `next` from `head` visits every
   * slot once, in `order`, and the tail's `next` is the terminator.
   */
  lemma Traversal(l: Links, t: nat, order: seq<nat>, pos: seq<nat>)
    requires Linked(l, t, order, pos)
    ensures Follow(l.nodes, l.head, |l.nodes|, true) == order
    ensures |order| > 0 ==> l.tail < |l.nodes| && l.nodes[l.tail].next == t
  {
    if |order| > 0 {
      FollowFrom(l, t, order, 0);
      assert LinkAt(l, t, order, |order| - 1);
    }
  }

  /** `check_bounds(size)`: whether `size` fits the index type (no `out_of_range`). */
  function CheckBounds(size: nat, t: nat): (ok: bool)
    ensures ok <==> size <= t
  {
    !(size > t)
  }

  /** The nodes `set_default_nodes(count)` writes: slot `i` between `i - 1` and `i + 1`. */
  function DefaultNodes(count: nat, t: nat): (r: seq<Node>)
    ensures |r| == count
  {
    seq(count, i requires 0 <= i < count => DefaultNode(i, count, t))
  }

  function DefaultNode(i: nat, count: nat, t: nat): Node
  {
    Node(if i == 0 then t else i - 1, if i + 1 == count then t else i + 1)
  }

  /**
   * `set_default_nodes(count)` as written: with no nodes it returns before
   * touching `head` and `tail`.
   */
  function DefaultLinksAsWritten(l: Links, count: nat, t: nat): (r: Links)
    ensures count == 0 ==> r.head == l.head && r.tail == l.tail
  {
    if count == 0 then Links([], l.head, l.tail)
    else Links(DefaultNodes(count, t), 0, count - 1)
  }

  /** `set_default_nodes(count)` with an empty list's `head` and `tail` for no nodes. */
  function DefaultLinks(count: nat, t: nat): (r: Links)
  {
    if count == 0 then Links([], t, t)
    else Links(DefaultNodes(count, t), 0, count - 1)
  }

  /** The default links chain the slots in index order. */
  lemma DefaultLinked(count: nat, t: nat)
    requires count <= t
    ensures Linked(DefaultLinks(count, t), t, Iota(count), Iota(count))
  {
  }

  /**
   * Assigning no elements to a two-element list leaves `head` and `tail`
   * on slots that no longer exist, as written.
   */
  lemma DefaultLinksAsWrittenStale()
    ensures var l := DefaultLinksAsWritten(Links([Node(9, 1), Node(0, 9)], 0, 1), 0, 9);
            !Linked(l, 9, [], []) && l.tail >= |l.nodes|
    ensures Linked(DefaultLinks(0, 9), 9, [], [])
  {
  }

  /** `push_back_node()`: a new slot `N` after the tail. */
  function PushBackNode(l: Links, t: nat): (r: Links)
    requires l.tail == t || l.tail < |l.nodes|
    ensures |r.nodes| == |l.nodes| + 1 && r.tail == |l.nodes|
  {
    var n := |l.nodes|;
    var nodes := l.nodes + [Node(l.tail, t)];
    if l.tail == t then Links(nodes, n, n)
    else Links(nodes[l.tail := nodes[l.tail].(next := n)], l.head, n)
  }

  /** Appending a slot to `order` is matched by appending its position. */
  lemma PermBack(order: seq<nat>, pos: seq<nat>)
    requires Perm(order, pos)
    ensures Perm(order + [|pos|], pos + [|pos|])
  {
    var n := |pos|;
    var o := order + [n];
    var p := pos + [n];
    forall k | 0 <= k < |o|
      ensures SlotAt(o, p, k)
    {
      if k < n {
        assert SlotAt(order, pos, k);
      }
    }
    forall i | 0 <= i < |p|
      ensures PosOf(o, p, i)
    {
      if i < n {
        assert PosOf(order, pos, i);
      }
    }
  }

  /** `push_back_node` keeps the list linked, with the new slot last. */
  lemma PushBackLinked(l: Links, t: nat, order: seq<nat>, pos: seq<nat>)
    requires Linked(l, t, order, pos) && |l.nodes| < t
    ensures Linked(PushBackNode(l, t), t, order + [|l.nodes|], pos + [|l.nodes|])
  {
    var n := |l.nodes|;
    var r := PushBackNode(l, t);
    var o := order + [n];
    PermBack(order, pos);
    forall k | 0 <= k < |o|
      ensures LinkAt(r, t, o, k)
    {
      if k < n {
        assert LinkAt(l, t, order, k) && SlotAt(order, pos, k);
        if k + 1 < n {
          Distinct(order, pos, k, n - 1);
        }
      }
    }
  }

  /** `push_front_node()`: a new slot `N` before the head. */
  function PushFrontNode(l: Links, t: nat): (r: Links)
    requires l.head == t || l.head < |l.nodes|
    ensures |r.nodes| == |l.nodes| + 1 && r.head == |l.nodes|
  {
    var n := |l.nodes|;
    var nodes := l.nodes + [Node(t, l.head)];
    if l.head == t then Links(nodes, n, n)
    else Links(nodes[l.head := nodes[l.head].(prev := n)], n, l.tail)
  }

  /** Every position one further on, and the new slot at position 0. */
  function PosAfterFront(pos: seq<nat>): (r: seq<nat>)
    ensures |r| == |pos| + 1
  {
    seq(|pos| + 1, i requires 0 <= i <= |pos| => if i < |pos| then pos[i] + 1 else 0)
  }

  /** Prepending a slot to `order` is matched by `PosAfterFront`. */
  lemma PermFront(order: seq<nat>, pos: seq<nat>)
    requires Perm(order, pos)
    ensures Perm([|pos|] + order, PosAfterFront(pos))
  {
    var n := |pos|;
    var o := [n] + order;
    var p := PosAfterFront(pos);
    forall k | 0 <= k < |o|
      ensures SlotAt(o, p, k)
    {
      if k > 0 {
        assert o[k] == order[k - 1] && SlotAt(order, pos, k - 1);
      }
    }
    forall i | 0 <= i < |p|
      ensures PosOf(o, p, i)
    {
      if i < n {
        assert PosOf(order, pos, i);
        assert o[pos[i] + 1] == order[pos[i]];
      }
    }
  }

  /** `push_front_node` keeps the list linked, with the new slot first. */
  lemma PushFrontLinked(l: Links, t: nat, order: seq<nat>, pos: seq<nat>)
    requires Linked(l, t, order, pos) && |l.nodes| < t
    ensures Linked(PushFrontNode(l, t), t, [|l.nodes|] + order, PosAfterFront(pos))
  {
    var n := |l.nodes|;
    var r := PushFrontNode(l, t);
    var o := [n] + order;
    PermFront(order, pos);
    forall k | 0 <= k < |o|
      ensures LinkAt(r, t, o, k)
    {
      if k > 0 {
        assert o[k] == order[k - 1] && NextAt(o, k, t) == NextAt(order, k - 1, t);
        assert LinkAt(l, t, order, k - 1) && SlotAt(order, pos, k - 1);
        if k > 1 {
          Distinct(order, pos, k - 1, 0);
          assert PrevAt(o, k, t) == PrevAt(order, k - 1, t);
        }
      }
    }
  }

  /** What `insert_index_node(index)` needs: a slot with bounded links, or the terminator. */
  predicate Insertable(l: Links, t: nat, index: nat)
  {
    if index == t then l.tail == t || l.tail < |l.nodes|
    else index < |l.nodes| && Bounded(l.nodes[index], t, |l.nodes|)
  }

  /**
   * `insert_index_node(index)`: a new slot `N` linked just before
   * `index`, or after the tail when `index` is the terminator.
   */
  function InsertNode(l: Links, t: nat, index: nat): (r: Links)
    requires Insertable(l, t, index)
    ensures |r.nodes| == |l.nodes| + 1
  {
    if index == t then PushBackNode(l, t)
    else
      var n := |l.nodes|;
      var before := l.nodes[index].prev;
      var nodes := (l.nodes + [Node(before, index)])[index := l.nodes[index].(prev := n)];
      if before == t then Links(nodes, n, l.tail)
      else Links(nodes[before := nodes[before].(next := n)], l.head, l.tail)
  }

  /** Inserting a slot at position `k` moves every later position one on. */
  function PosAfterInsert(pos: seq<nat>, k: nat): (r: seq<nat>)
    ensures |r| == |pos| + 1
  {
    seq(|pos| + 1, i requires 0 <= i <= |pos| =>
      if i == |pos| then k else if pos[i] < k then pos[i] else pos[i] + 1)
  }

  /** `order` with the new slot at position `k`. */
  function OrderAfterInsert(order: seq<nat>, k: nat): (r: seq<nat>)
    requires k <= |order|
    ensures |r| == |order| + 1
    ensures forall j :: 0 <= j < |r| ==> r[j] == if j < k then order[j] else if j == k then |order| else order[j - 1]
  {
    order[..k] + [|order|] + order[k..]
  }

  lemma PermInsert(order: seq<nat>, pos: seq<nat>, k: nat)
    requires Perm(order, pos) && k <= |order|
    ensures Perm(OrderAfterInsert(order, k), PosAfterInsert(pos, k))
  {
    var n := |order|;
    var o := OrderAfterInsert(order, k);
    var p := PosAfterInsert(pos, k);
    forall j | 0 <= j < |o|
      ensures SlotAt(o, p, j)
    {
      if j < k {
        assert SlotAt(order, pos, j);
      } else if j > k {
        assert SlotAt(order, pos, j - 1);
      }
    }
    forall i | 0 <= i < |p|
      ensures PosOf(o, p, i)
    {
      if i < n {
        assert PosOf(order, pos, i);
      }
    }
  }

  /** Slot by slot, what `insert_index_node(index)` writes for a slot `index`. */
  lemma InsertShape(l: Links, t: nat, index: nat, x: nat)
    requires index < |l.nodes| < t && Bounded(l.nodes[index], t, |l.nodes|) && l.nodes[index].prev != index
    requires x <= |l.nodes|
    ensures var r := InsertNode(l, t, index);
      var n := |l.nodes|;
      var before := l.nodes[index].prev;
      r.head == (if before == t then n else l.head) && r.tail == l.tail &&
      r.nodes[x] == if x == n then Node(before, index)
                    else if x == index then l.nodes[index].(prev := n)
                    else if x == before then l.nodes[x].(next := n)
                    else l.nodes[x]
  {
  }

  /** The chain condition at a position `j` before the new slot's. */
  lemma InsertEarlierAt(l: Links, t: nat, order: seq<nat>, pos: seq<nat>, k: nat, j: nat)
    requires Linked(l, t, order, pos) && |l.nodes| < t && j < k < |order| && order[k] < |order|
    requires l.nodes[order[k]].prev == PrevAt(order, k, t) && Bounded(l.nodes[order[k]], t, |l.nodes|)
    ensures Insertable(l, t, order[k]) && LinkAt(InsertNode(l, t, order[k]), t, OrderAfterInsert(order, k), j)
  {
    var o := OrderAfterInsert(order, k);
    Distinct(order, pos, k - 1, k);
    assert LinkAt(l, t, order, j) && SlotAt(order, pos, j);
    InsertShape(l, t, order[k], o[j]);
    Distinct(order, pos, j, k);
    assert PrevAt(o, j, t) == PrevAt(order, j, t);
    if j + 1 < k {
      Distinct(order, pos, j, k - 1);
      assert NextAt(o, j, t) == NextAt(order, j, t);
    }
  }

  /** The chain condition at a position `j` after the new slot's. */
  lemma InsertLaterAt(l: Links, t: nat, order: seq<nat>, pos: seq<nat>, k: nat, j: nat)
    requires Linked(l, t, order, pos) && |l.nodes| < t && k < j <= |order| && order[k] < |order|
    requires l.nodes[order[k]].prev == PrevAt(order, k, t) && Bounded(l.nodes[order[k]], t, |l.nodes|)
    ensures Insertable(l, t, order[k]) && LinkAt(InsertNode(l, t, order[k]), t, OrderAfterInsert(order, k), j)
  {
    var o := OrderAfterInsert(order, k);
    if k > 0 {
      Distinct(order, pos, k - 1, k);
    }
    assert LinkAt(l, t, order, j - 1) && SlotAt(order, pos, j - 1);
    InsertShape(l, t, order[k], o[j]);
    assert NextAt(o, j, t) == NextAt(order, j - 1, t);
    if j > k + 1 {
      Distinct(order, pos, j - 1, k);
      assert PrevAt(o, j, t) == PrevAt(order, j - 1, t);
      if k > 0 {
        Distinct(order, pos, j - 1, k - 1);
      }
    }
  }

  /** The chain condition at position `j` after `insert_index_node` of a slot at position `k`. */
  lemma InsertAt(l: Links, t: nat, order: seq<nat>, pos: seq<nat>, k: nat, j: nat)
    requires Linked(l, t, order, pos) && |l.nodes| < t && k < |order| && j <= |order| && order[k] < |order|
    requires l.nodes[order[k]].prev == PrevAt(order, k, t) && Bounded(l.nodes[order[k]], t, |l.nodes|)
    ensures Insertable(l, t, order[k]) && LinkAt(InsertNode(l, t, order[k]), t, OrderAfterInsert(order, k), j)
  {
    if j < k {
      InsertEarlierAt(l, t, order, pos, k, j);
    } else if j > k {
      InsertLaterAt(l, t, order, pos, k, j);
    } else {
      var o := OrderAfterInsert(order, k);
      if k > 0 {
        Distinct(order, pos, k - 1, k);
        assert SlotAt(order, pos, k - 1);
      }
      InsertShape(l, t, order[k], o[j]);
      assert PrevAt(o, j, t) == PrevAt(order, k, t);
    }
  }

  /** `insert_index_node` keeps the list linked, with the new slot just before `index`. */
  lemma InsertLinked(l: Links, t: nat, order: seq<nat>, pos: seq<nat>, index: nat)
    requires Linked(l, t, order, pos) && |l.nodes| < t && (index == t || index < |l.nodes|)
    ensures Insertable(l, t, index)
    ensures index == t ==> Linked(InsertNode(l, t, index), t, order + [|l.nodes|], pos + [|l.nodes|])
    ensures index != t ==> (pos[index] <= |order| &&
      Linked(InsertNode(l, t, index), t, OrderAfterInsert(order, pos[index]), PosAfterInsert(pos, pos[index])))
  {
    if index == t {
      PushBackLinked(l, t, order, pos);
    } else {
      NodeBounded(l, t, order, pos, index);
      Pointers(l, t, order, pos, index, index);
      SlotsInRange(order, pos);
      var k := pos[index];
      PermInsert(order, pos, k);
      var o := OrderAfterInsert(order, k);
      forall j | 0 <= j < |o|
        ensures LinkAt(InsertNode(l, t, index), t, o, j)
      {
        InsertAt(l, t, order, pos, k, j);
      }
      var n := |order|;
      assert LinkAt(l, t, order, 0) && LinkAt(l, t, order, n - 1);
      InsertShape(l, t, index, index);
    }
  }

  /** Inserting before the terminator is `push_back_node`. */
  lemma InsertAtEndIsPushBack(l: Links, t: nat)
    requires l.tail == t || l.tail < |l.nodes|
    ensures InsertNode(l, t, t) == PushBackNode(l, t)
  {
  }

  /** `reverse()`: `prev` and `next` exchanged in every node, and `head` with `tail`. */
  function Reversed(l: Links): (r: Links)
    ensures |r.nodes| == |l.nodes| && r.head == l.tail && r.tail == l.head
    ensures forall i :: 0 <= i < |l.nodes| ==> r.nodes[i] == Node(l.nodes[i].next, l.nodes[i].prev)
  {
    Links(seq(|l.nodes|, i requires 0 <= i < |l.nodes| => Node(l.nodes[i].next, l.nodes[i].prev)), l.tail, l.head)
  }

  /** The sequence read from the other end. */
  function Backwards<X>(s: seq<X>): (r: seq<X>)
    ensures |r| == |s| && forall k :: 0 <= k < |s| ==> r[k] == s[|s| - 1 - k]
  {
    seq(|s|, k requires 0 <= k < |s| => s[|s| - 1 - k])
  }

  /** Each position `p` becomes `n - 1 - p`. */
  function Mirrored(pos: seq<nat>, n: nat): (r: seq<nat>)
    ensures |r| == |pos|
  {
    seq(|pos|, i requires 0 <= i < |pos| => if pos[i] < n then n - 1 - pos[i] else 0)
  }

  /** `reverse()` keeps the list linked, in the opposite order. */
  lemma ReverseLinked(l: Links, t: nat, order: seq<nat>, pos: seq<nat>)
    requires Linked(l, t, order, pos)
    ensures Linked(Reversed(l), t, Backwards(order), Mirrored(pos, |order|))
  {
    var n := |order|;
    var o := Backwards(order);
    var p := Mirrored(pos, n);
    var r := Reversed(l);
    forall k | 0 <= k < n
      ensures SlotAt(o, p, k)
    {
      assert SlotAt(order, pos, n - 1 - k);
    }
    forall i | 0 <= i < n
      ensures PosOf(o, p, i)
    {
      assert PosOf(order, pos, i);
    }
    forall k | 0 <= k < n
      ensures LinkAt(r, t, o, k)
    {
      assert LinkAt(l, t, order, n - 1 - k);
    }
    if n > 0 {
      assert LinkAt(l, t, order, 0) && LinkAt(l, t, order, n - 1);
    }
  }

  /** What `erase_index(index)` needs: the node of `index` and of the last slot point at slots or the terminator. */
  predicate Erasable(l: Links, t: nat, index: nat)
  {
    index < |l.nodes| && Bounded(l.nodes[index], t, |l.nodes|) && Bounded(l.nodes[|l.nodes| - 1], t, |l.nodes|)
  }

  /** Slot `at` now has `to` after it; the terminator stands for `head`. */
  function PointNext(l: Links, t: nat, at: nat, to: nat): (r: Links)
    requires at == t || at < |l.nodes|
    ensures |r.nodes| == |l.nodes| && r.tail == l.tail && r.head == (if at == t then to else l.head)
  {
    if at == t then l.(head := to) else l.(nodes := l.nodes[at := l.nodes[at].(next := to)])
  }

  /** Slot `at` now has `to` before it; the terminator stands for `tail`. */
  function PointPrev(l: Links, t: nat, at: nat, to: nat): (r: Links)
    requires at == t || at < |l.nodes|
    ensures |r.nodes| == |l.nodes| && r.head == l.head && r.tail == (if at == t then to else l.tail)
  {
    if at == t then l.(tail := to) else l.(nodes := l.nodes[at := l.nodes[at].(prev := to)])
  }

  /** Pointing a slot's `next` elsewhere changes no other slot. */
  lemma PointNextAt(l: Links, t: nat, at: nat, to: nat, x: nat)
    requires (at == t || at < |l.nodes|) && x < |l.nodes| <= t
    ensures PointNext(l, t, at, to).nodes[x].prev == l.nodes[x].prev
    ensures PointNext(l, t, at, to).nodes[x].next == if x == at then to else l.nodes[x].next
  {
  }

  /** Pointing a slot's `prev` elsewhere changes no other slot. */
  lemma PointPrevAt(l: Links, t: nat, at: nat, to: nat, x: nat)
    requires (at == t || at < |l.nodes|) && x < |l.nodes| <= t
    ensures PointPrev(l, t, at, to).nodes[x].next == l.nodes[x].next
    ensures PointPrev(l, t, at, to).nodes[x].prev == if x == at then to else l.nodes[x].prev
  {
  }

  /** The first half of `erase_index(index)`: the neighbours of `index` linked to each other. */
  function Unlinked(l: Links, t: nat, index: nat): (r: Links)
    requires index < |l.nodes| && Bounded(l.nodes[index], t, |l.nodes|)
    ensures |r.nodes| == |l.nodes|
  {
    var before := l.nodes[index].prev;
    var after := l.nodes[index].next;
    PointPrev(PointNext(l, t, before, after), t, after, before)
  }

  /** Unlinking keeps every node pointing at slots or at the terminator, the last one included. */
  lemma UnlinkedBounded(l: Links, t: nat, index: nat)
    requires Erasable(l, t, index) && |l.nodes| <= t
    ensures Bounded(Unlinked(l, t, index).nodes[|l.nodes| - 1], t, |l.nodes|)
  {
  }

  /**
   * The second half: the node of slot `last` moved into slot `index`,
   * and its neighbours pointed at `index`.
   */
  function Relocated(u: Links, t: nat, index: nat, last: nat): (r: Links)
    requires index < |u.nodes| && last < |u.nodes| && Bounded(u.nodes[last], t, |u.nodes|)
    ensures |r.nodes| == |u.nodes|
  {
    var lp := u.nodes[last].prev;
    var ln := u.nodes[last].next;
    PointPrev(PointNext(u.(nodes := u.nodes[index := u.nodes[last]]), t, lp, index), t, ln, index)
  }

  /**
   * `erase_index(index)` on the links: unlink `index`, move the last slot
   * into it when it is not the last, and drop the last node.
   */
  function EraseNode(l: Links, t: nat, index: nat): (r: Links)
    requires Erasable(l, t, index)
    ensures |r.nodes| == |l.nodes| - 1
  {
    var w := Moved(l, t, index);
    w.(nodes := w.nodes[..|l.nodes| - 1])
  }

  /** The links of `erase_index(index)` before the last node is dropped. */
  function Moved(l: Links, t: nat, index: nat): (r: Links)
    requires Erasable(l, t, index)
    ensures |r.nodes| == |l.nodes|
  {
    var u := Unlinked(l, t, index);
    var last := |l.nodes| - 1;
    if index < last then Relocated(u, t, index, last) else u
  }

  /** `Moved` is the unlinking followed, unless the erased slot was the last, by the relocation. */
  lemma MovedSteps(l: Links, t: nat, index: nat, u: Links, w: Links)
    requires Erasable(l, t, index) && u == Unlinked(l, t, index)
    requires index < |l.nodes| - 1 ==> Bounded(u.nodes[|l.nodes| - 1], t, |l.nodes|) && w == Relocated(u, t, index, |l.nodes| - 1)
    requires index == |l.nodes| - 1 ==> w == u
    ensures Moved(l, t, index) == w && EraseNode(l, t, index) == w.(nodes := w.nodes[..|l.nodes| - 1])
  {
  }

  /** `erase_index(index)` on the values: the last value moved into slot `index`, then dropped. */
  function EraseValue<T>(values: seq<T>, index: nat): (r: seq<T>)
    requires index < |values|
    ensures |r| == |values| - 1
  {
    var last := |values| - 1;
    (if index < last then values[index := values[last]] else values)[..last]
  }

  /** The slot `erase_index(index)` returns, as written: the old `next` of `index`. */
  function EraseNextAsWritten(l: Links, index: nat): nat
    requires index < |l.nodes|
  {
    l.nodes[index].next
  }

  /** The slot of the element after the erased one, which is `index` itself when that element was the last slot. */
  function EraseNext(l: Links, index: nat): nat
    requires index < |l.nodes|
  {
    var after := l.nodes[index].next;
    if index < |l.nodes| - 1 && after == |l.nodes| - 1 then index else after
  }

  /** `order` without position `k`. */
  function Removed(order: seq<nat>, k: nat): (r: seq<nat>)
    requires k < |order|
    ensures |r| == |order| - 1
    ensures forall j :: 0 <= j < |r| ==> r[j] == if j < k then order[j] else order[j + 1]
  {
    order[..k] + order[k + 1..]
  }

  /** `o` with slot `from` called `to`. */
  function Renamed(o: seq<nat>, from: nat, to: nat): (r: seq<nat>)
    ensures |r| == |o| && forall j :: 0 <= j < |o| ==> r[j] == if o[j] == from then to else o[j]
  {
    seq(|o|, j requires 0 <= j < |o| => if o[j] == from then to else o[j])
  }

  /** The order after `erase_index` of the slot at position `k`. */
  function OrderAfterErase(order: seq<nat>, index: nat, k: nat): (r: seq<nat>)
    requires k < |order|
    ensures |r| == |order| - 1
  {
    Renamed(Removed(order, k), |order| - 1, index)
  }

  /** The positions after `erase_index(index)` of the slot at position `k`. */
  function PosAfterErase(pos: seq<nat>, index: nat, k: nat): (r: seq<nat>)
    requires index < |pos|
    ensures |r| == |pos| - 1
  {
    seq(|pos| - 1, i requires 0 <= i < |pos| - 1 =>
      var q := pos[if i == index then |pos| - 1 else i];
      if q <= k then q else q - 1)
  }

  /** Positions of `Removed(order, k)` hold distinct slots, none of them `order[k]`. */
  lemma RemovedDistinct(order: seq<nat>, pos: seq<nat>, k: nat, a: nat, b: nat)
    requires Perm(order, pos) && k < |order| && a < |order| - 1 && b < |order| - 1
    ensures Removed(order, k)[a] != order[k] && Removed(order, k)[a] < |order|
    ensures a != b ==> Removed(order, k)[a] != Removed(order, k)[b]
  {
    var a' := if a < k then a else a + 1;
    var b' := if b < k then b else b + 1;
    Distinct(order, pos, a', k);
    assert SlotAt(order, pos, a');
    if a != b {
      Distinct(order, pos, a', b');
    }
  }

  /** Slot by slot, what `Unlinked` writes when the neighbours of `index` are two different slots or the terminator. */
  lemma UnlinkedShape(l: Links, t: nat, index: nat, x: nat)
    requires index < |l.nodes| <= t && Bounded(l.nodes[index], t, |l.nodes|) && x < |l.nodes|
    requires l.nodes[index].prev != t ==> l.nodes[index].prev != l.nodes[index].next
    ensures var u := Unlinked(l, t, index);
      var before := l.nodes[index].prev;
      var after := l.nodes[index].next;
      u.head == (if before == t then after else l.head) &&
      u.tail == (if after == t then before else l.tail) &&
      u.nodes[x] == Node(if x == after then before else l.nodes[x].prev, if x == before then after else l.nodes[x].next)
  {
  }

  /** The chain condition at position `j` after unlinking the slot at position `k`. */
  lemma UnlinkAt(l: Links, t: nat, order: seq<nat>, pos: seq<nat>, k: nat, j: nat)
    requires Linked(l, t, order, pos) && k < |order| && j < |order| - 1 && order[k] < |order|
    requires l.nodes[order[k]] == Node(PrevAt(order, k, t), NextAt(order, k, t))
    requires Bounded(l.nodes[order[k]], t, |l.nodes|)
    requires l.nodes[order[k]].prev != t ==> l.nodes[order[k]].prev != l.nodes[order[k]].next
    ensures LinkAt(Unlinked(l, t, order[k]), t, Removed(order, k), j)
  {
    var n := |order|;
    var o := Removed(order, k);
    var j' := if j < k then j else j + 1;
    assert o[j] == order[j'];
    assert LinkAt(l, t, order, j') && SlotAt(order, pos, j');
    UnlinkedShape(l, t, order[k], order[j']);
    Distinct(order, pos, j', k);
    if k > 0 && j' != k - 1 {
      Distinct(order, pos, j', k - 1);
    }
    if k + 1 < n && j' != k + 1 {
      Distinct(order, pos, j', k + 1);
    }
    if j < k {
      assert PrevAt(o, j, t) == PrevAt(order, j, t);
      if j + 1 < k {
        assert NextAt(o, j, t) == NextAt(order, j, t);
      }
    } else {
      assert NextAt(o, j, t) == NextAt(order, j + 1, t);
      if j > k {
        assert PrevAt(o, j, t) == PrevAt(order, j + 1, t);
      }
    }
  }

  /** Unlinking the slot at position `k` chains the other slots in order. */
  lemma UnlinkAlong(l: Links, t: nat, order: seq<nat>, pos: seq<nat>, k: nat)
    requires Linked(l, t, order, pos) && k < |order|
    ensures order[k] < |l.nodes| && Bounded(l.nodes[order[k]], t, |l.nodes|)
    ensures Along(Unlinked(l, t, order[k]), t, Removed(order, k))
  {
    var n := |order|;
    var index := order[k];
    assert SlotAt(order, pos, k) && LinkAt(l, t, order, k);
    NodeBounded(l, t, order, pos, index);
    if k > 0 && k + 1 < n {
      Distinct(order, pos, k - 1, k + 1);
    }
    var o := Removed(order, k);
    forall j | 0 <= j < |o|
      ensures LinkAt(Unlinked(l, t, index), t, o, j)
    {
      UnlinkAt(l, t, order, pos, k, j);
    }
    assert LinkAt(l, t, order, 0) && LinkAt(l, t, order, n - 1);
    assert SlotAt(order, pos, 0) && SlotAt(order, pos, n - 1);
    UnlinkedShape(l, t, index, index);
    if k > 0 {
      assert SlotAt(order, pos, k - 1);
    }
    if k + 1 < n {
      assert SlotAt(order, pos, k + 1);
    }
  }

  /** Slot by slot, what `Relocated` writes when the last slot's neighbours are other slots or the terminator. */
  lemma RelocatedShape(u: Links, t: nat, index: nat, last: nat, x: nat)
    requires index < |u.nodes| && last < |u.nodes| && Bounded(u.nodes[last], t, |u.nodes|) && x < |u.nodes| <= t
    requires u.nodes[last].prev != index && u.nodes[last].next != index
    requires u.nodes[last].prev != t ==> u.nodes[last].prev != u.nodes[last].next
    ensures var r := Relocated(u, t, index, last);
      var lp := u.nodes[last].prev;
      var ln := u.nodes[last].next;
      r.head == (if lp == t then index else u.head) &&
      r.tail == (if ln == t then index else u.tail) &&
      r.nodes[x] == if x == index then u.nodes[last]
                    else Node(if x == ln then index else u.nodes[x].prev, if x == lp then index else u.nodes[x].next)
  {
  }

  /** The chain condition at position `m`, where the relocated slot now sits. */
  lemma RelocateSelfAt(u: Links, t: nat, order: seq<nat>, pos: seq<nat>, k: nat, m: nat)
    requires Perm(order, pos) && k < |order| && |u.nodes| == |order| <= t
    requires m < |order| - 1 && Removed(order, k)[m] == |order| - 1 && order[k] < |order| - 1
    requires LinkAt(u, t, Removed(order, k), m)
    requires Bounded(u.nodes[|order| - 1], t, |order|)
    requires u.nodes[|order| - 1].prev != order[k] && u.nodes[|order| - 1].next != order[k]
    requires u.nodes[|order| - 1].prev != t ==> u.nodes[|order| - 1].prev != u.nodes[|order| - 1].next
    ensures LinkAt(Relocated(u, t, order[k], |order| - 1), t, Renamed(Removed(order, k), |order| - 1, order[k]), m)
  {
    var last := |order| - 1;
    var index := order[k];
    var o := Removed(order, k);
    var o2 := Renamed(o, last, index);
    RelocatedShape(u, t, index, last, index);
    if m > 0 {
      RemovedDistinct(order, pos, k, m - 1, m);
    }
    if m + 1 < |o| {
      RemovedDistinct(order, pos, k, m + 1, m);
    }
    assert o2[m] == index;
    assert PrevAt(o2, m, t) == PrevAt(o, m, t) && NextAt(o2, m, t) == NextAt(o, m, t);
  }

  /**
   * The chain condition at position `j` of `o` after the slot at position
   * `m` (the last slot) is renamed `index`, given which slots are distinct.
   */
  lemma RenameAt(u: Links, t: nat, o: seq<nat>, index: nat, m: nat, j: nat)
    requires |u.nodes| == |o| + 1 <= t && index < |o| && m < |o| && j < |o| && j != m && o[m] == |o|
    requires o[j] != index && o[j] < |o|
    requires j > 0 && j - 1 != m ==> o[j - 1] != |o|
    requires j + 1 < |o| && j + 1 != m ==> o[j + 1] != |o|
    requires m > 0 && j != m - 1 ==> o[j] != o[m - 1]
    requires m + 1 < |o| && j != m + 1 ==> o[j] != o[m + 1]
    requires LinkAt(u, t, o, j)
    requires u.nodes[|o|] == Node(PrevAt(o, m, t), NextAt(o, m, t))
    requires Bounded(u.nodes[|o|], t, |o| + 1)
    requires u.nodes[|o|].prev != index && u.nodes[|o|].next != index
    requires u.nodes[|o|].prev != t ==> u.nodes[|o|].prev != u.nodes[|o|].next
    ensures LinkAt(Relocated(u, t, index, |o|), t, Renamed(o, |o|, index), j)
  {
    var last := |o|;
    var o2 := Renamed(o, last, index);
    var x := o[j];
    assert o2[j] == x;
    RelocatedShape(u, t, index, last, x);
    assert PrevAt(o2, j, t) == (if j == m + 1 then index else PrevAt(o, j, t));
    assert NextAt(o2, j, t) == (if j + 1 == m then index else NextAt(o, j, t));
  }

  /** The chain condition at a position `j` other than the relocated slot's. */
  lemma RelocateOtherAt(u: Links, t: nat, order: seq<nat>, pos: seq<nat>, k: nat, m: nat, j: nat)
    requires Perm(order, pos) && k < |order| && |u.nodes| == |order| <= t
    requires m < |order| - 1 && j < |order| - 1 && j != m && Removed(order, k)[m] == |order| - 1 && order[k] < |order| - 1
    requires LinkAt(u, t, Removed(order, k), j)
    requires Bounded(u.nodes[|order| - 1], t, |order|)
    requires u.nodes[|order| - 1] == Node(PrevAt(Removed(order, k), m, t), NextAt(Removed(order, k), m, t))
    requires u.nodes[|order| - 1].prev != order[k] && u.nodes[|order| - 1].next != order[k]
    requires u.nodes[|order| - 1].prev != t ==> u.nodes[|order| - 1].prev != u.nodes[|order| - 1].next
    ensures LinkAt(Relocated(u, t, order[k], |order| - 1), t, Renamed(Removed(order, k), |order| - 1, order[k]), j)
  {
    var o := Removed(order, k);
    RemovedDistinct(order, pos, k, j, m);
    if j > 0 {
      RemovedDistinct(order, pos, k, j - 1, m);
    }
    if j + 1 < |o| {
      RemovedDistinct(order, pos, k, j + 1, m);
    }
    if m > 0 && j != m - 1 {
      RemovedDistinct(order, pos, k, j, m - 1);
    }
    if m + 1 < |o| && j != m + 1 {
      RemovedDistinct(order, pos, k, j, m + 1);
    }
    RenameAt(u, t, o, order[k], m, j);
  }

  /** The facts about the last slot's node that the relocation relies on. */
  predicate LastNode(u: Links, t: nat, order: seq<nat>, k: nat, m: nat)
    requires k < |order| && |u.nodes| == |order| && m < |order| - 1
  {
    var last := |order| - 1;
    var o := Removed(order, k);
    Bounded(u.nodes[last], t, |order|) &&
    u.nodes[last] == Node(PrevAt(o, m, t), NextAt(o, m, t)) &&
    u.nodes[last].prev != order[k] && u.nodes[last].next != order[k] &&
    (u.nodes[last].prev != t ==> u.nodes[last].prev != u.nodes[last].next)
  }

  /** The last slot's node, at position `m` of the unlinked order, satisfies `LastNode`. */
  lemma LastNodeFacts(u: Links, t: nat, order: seq<nat>, pos: seq<nat>, k: nat, m: nat)
    requires Perm(order, pos) && k < |order| && |u.nodes| == |order|
    requires Along(u, t, Removed(order, k)) && m < |order| - 1 && Removed(order, k)[m] == |order| - 1
    requires order[k] < |order| - 1 && |order| <= t
    ensures LastNode(u, t, order, k, m)
  {
    var o := Removed(order, k);
    assert LinkAt(u, t, o, m);
    RemovedDistinct(order, pos, k, m, m);
    if m > 0 {
      RemovedDistinct(order, pos, k, m - 1, m);
    }
    if m + 1 < |o| {
      RemovedDistinct(order, pos, k, m + 1, m);
      if m > 0 {
        RemovedDistinct(order, pos, k, m - 1, m + 1);
      }
    }
  }

  /** The chain condition at any position after the relocation. */
  lemma RelocateAt(u: Links, t: nat, order: seq<nat>, pos: seq<nat>, k: nat, m: nat, j: nat)
    requires Perm(order, pos) && k < |order| && |u.nodes| == |order| <= t
    requires m < |order| - 1 && j < |order| - 1 && Removed(order, k)[m] == |order| - 1 && order[k] < |order| - 1
    requires LinkAt(u, t, Removed(order, k), j) && LinkAt(u, t, Removed(order, k), m) && LastNode(u, t, order, k, m)
    ensures LinkAt(Relocated(u, t, order[k], |order| - 1), t, Renamed(Removed(order, k), |order| - 1, order[k]), j)
  {
    if j == m {
      RelocateSelfAt(u, t, order, pos, k, m);
    } else {
      RelocateOtherAt(u, t, order, pos, k, m, j);
    }
  }

  /** Head and tail after the relocation are the ends of the renamed order. */
  lemma RelocateEnds(u: Links, t: nat, order: seq<nat>, pos: seq<nat>, k: nat, m: nat)
    requires Perm(order, pos) && k < |order| && |u.nodes| == |order| <= t
    requires Along(u, t, Removed(order, k)) && m < |order| - 1 && Removed(order, k)[m] == |order| - 1
    requires order[k] < |order| - 1 && LastNode(u, t, order, k, m)
    ensures var r := Relocated(u, t, order[k], |order| - 1);
      var o2 := Renamed(Removed(order, k), |order| - 1, order[k]);
      r.head == o2[0] && r.tail == o2[|o2| - 1] && r.head < |r.nodes| && r.tail < |r.nodes|
  {
    var o := Removed(order, k);
    var o2 := Renamed(o, |order| - 1, order[k]);
    if m > 0 {
      RemovedDistinct(order, pos, k, 0, m);
      RemovedDistinct(order, pos, k, m - 1, m);
      assert o2[0] == o[0];
    } else {
      assert o2[0] == order[k];
    }
    if m + 1 < |o| {
      RemovedDistinct(order, pos, k, |o| - 1, m);
      RemovedDistinct(order, pos, k, m + 1, m);
      assert o2[|o2| - 1] == o[|o| - 1];
    } else {
      assert o2[|o2| - 1] == order[k];
    }
  }

  /**
   * Moving the last slot, found at position `m` of the unlinked order,
   * into the erased slot keeps the chain, with that slot renamed.
   */
  lemma RelocateAlong(u: Links, t: nat, order: seq<nat>, pos: seq<nat>, k: nat, m: nat)
    requires Perm(order, pos) && k < |order| && |u.nodes| == |order|
    requires Along(u, t, Removed(order, k)) && m < |order| - 1 && Removed(order, k)[m] == |order| - 1
    requires order[k] < |order| - 1 && |order| <= t
    ensures Bounded(u.nodes[|order| - 1], t, |order|)
    ensures Along(Relocated(u, t, order[k], |order| - 1), t, Renamed(Removed(order, k), |order| - 1, order[k]))
  {
    var last := |order| - 1;
    var index := order[k];
    var o := Removed(order, k);
    LastNodeFacts(u, t, order, pos, k, m);
    assert LinkAt(u, t, o, m);
    forall j | 0 <= j < |o|
      ensures LinkAt(Relocated(u, t, index, last), t, Renamed(o, last, index), j)
    {
      assert LinkAt(u, t, o, j);
      RelocateAt(u, t, order, pos, k, m, j);
    }
    RelocateEnds(u, t, order, pos, k, m);
  }

  /** Dropping the last node leaves a chain that never reaches it. */
  lemma TruncateAlong(w: Links, t: nat, o: seq<nat>, last: nat)
    requires Along(w, t, o) && last <= |w.nodes| && forall j :: 0 <= j < |o| ==> o[j] < last
    ensures Along(w.(nodes := w.nodes[..last]), t, o)
  {
    var r := w.(nodes := w.nodes[..last]);
    forall j | 0 <= j < |o|
      ensures LinkAt(r, t, o, j)
    {
      assert LinkAt(w, t, o, j);
    }
  }

  /** The positions after an erase invert the order after it. */
  lemma PermErase(order: seq<nat>, pos: seq<nat>, k: nat)
    requires Perm(order, pos) && k < |order|
    ensures order[k] < |order|
    ensures Perm(OrderAfterErase(order, order[k], k), PosAfterErase(pos, order[k], k))
  {
    var n := |order|;
    var last := n - 1;
    assert SlotAt(order, pos, k);
    var index := order[k];
    var o := Removed(order, k);
    var o2 := OrderAfterErase(order, index, k);
    var p2 := PosAfterErase(pos, index, k);
    forall j | 0 <= j < |o2|
      ensures SlotAt(o2, p2, j)
    {
      var j' := if j < k then j else j + 1;
      assert o[j] == order[j'] && SlotAt(order, pos, j');
      Distinct(order, pos, j', k);
    }
    forall i | 0 <= i < |p2|
      ensures PosOf(o2, p2, i)
    {
      if i == index {
        assert PosOf(order, pos, last);
        Distinct(order, pos, pos[last], k);
      } else {
        assert PosOf(order, pos, i);
        Distinct(order, pos, pos[i], k);
      }
    }
  }

  /** Erasing the last slot needs no relocation: the order after it is the unlinked order. */
  lemma ErasedLastOrder(order: seq<nat>, pos: seq<nat>, k: nat)
    requires Perm(order, pos) && k < |order| && order[k] == |order| - 1
    ensures OrderAfterErase(order, order[k], k) == Removed(order, k)
  {
    var o := Removed(order, k);
    var o2 := OrderAfterErase(order, order[k], k);
    forall j | 0 <= j < |o|
      ensures o2[j] == o[j]
    {
      RemovedDistinct(order, pos, k, j, j);
    }
  }

  /** The unlinked last slot sits at position `m` of the unlinked order. */
  lemma LastAfterUnlink(order: seq<nat>, pos: seq<nat>, k: nat)
    requires Perm(order, pos) && k < |order| && order[k] < |order| - 1
    ensures pos[|order| - 1] < |order| && pos[|order| - 1] != k
    ensures var m := if pos[|order| - 1] < k then pos[|order| - 1] else pos[|order| - 1] - 1;
      m < |order| - 1 && Removed(order, k)[m] == |order| - 1
  {
    var last := |order| - 1;
    assert PosOf(order, pos, last);
    Distinct(order, pos, pos[last], k);
  }

  /** Erasing a slot other than the last: the last slot moves into it. */
  lemma MovedInto(l: Links, t: nat, order: seq<nat>, pos: seq<nat>, k: nat)
    requires |order| == |l.nodes| <= t && Perm(order, pos) && k < |order| && order[k] < |order| - 1
    requires Erasable(l, t, order[k]) && Along(Unlinked(l, t, order[k]), t, Removed(order, k))
    ensures Along(Moved(l, t, order[k]), t, OrderAfterErase(order, order[k], k))
  {
    var last := |order| - 1;
    LastAfterUnlink(order, pos, k);
    var m := if pos[last] < k then pos[last] else pos[last] - 1;
    RelocateAlong(Unlinked(l, t, order[k]), t, order, pos, k, m);
  }

  /** Before the last node is dropped, the erase chains the slots of the new order. */
  lemma MovedAlong(l: Links, t: nat, order: seq<nat>, pos: seq<nat>, index: nat)
    requires Linked(l, t, order, pos) && index < |l.nodes|
    ensures Erasable(l, t, index) && pos[index] < |order|
    ensures Along(Moved(l, t, index), t, OrderAfterErase(order, index, pos[index]))
  {
    var last := |order| - 1;
    NodeBounded(l, t, order, pos, index);
    NodeBounded(l, t, order, pos, last);
    var k := pos[index];
    UnlinkAlong(l, t, order, pos, k);
    if index < last {
      MovedInto(l, t, order, pos, k);
    } else {
      ErasedLastOrder(order, pos, k);
    }
  }

  /**
   * `erase_index(index)` keeps the list linked: the erased slot's
   * position is gone, and the last slot now lives in slot `index`.
   */
  lemma EraseLinked(l: Links, t: nat, order: seq<nat>, pos: seq<nat>, index: nat)
    requires Linked(l, t, order, pos) && index < |l.nodes|
    ensures Erasable(l, t, index) && pos[index] < |order|
    ensures Linked(EraseNode(l, t, index), t, OrderAfterErase(order, index, pos[index]), PosAfterErase(pos, index, pos[index]))
  {
    MovedAlong(l, t, order, pos, index);
    assert PosOf(order, pos, index);
    var k := pos[index];
    var o2 := OrderAfterErase(order, index, k);
    PermErase(order, pos, k);
    forall j | 0 <= j < |o2|
      ensures o2[j] < |order| - 1
    {
      RemovedDistinct(order, pos, k, j, j);
    }
    TruncateAlong(Moved(l, t, index), t, o2, |order| - 1);
  }

  /** The corrected return of `erase_index`: the slot now holding the element after the erased one. */
  lemma EraseNextFollows(l: Links, t: nat, order: seq<nat>, pos: seq<nat>, index: nat)
    requires Linked(l, t, order, pos) && index < |l.nodes|
    ensures pos[index] < |order|
    ensures var o2 := OrderAfterErase(order, index, pos[index]);
      EraseNext(l, index) == if pos[index] < |o2| then o2[pos[index]] else t
  {
    NodeBounded(l, t, order, pos, index);
    var k := pos[index];
    if k + 1 < |order| {
      Distinct(order, pos, k + 1, k);
    }
  }

  /**
   * The whole effect of erasing the slot `index` from a well-formed list: the
   * list stays well formed, the `k`-th value of the list order is gone, and the
   * returned slot holds the element that followed it.
   */
  lemma ErasedList<T>(l: Links, t: nat, v: seq<T>, order: seq<nat>, pos: seq<nat>, index: nat,
                      l2: Links, v2: seq<T>, next: nat)
    requires |v| == |l.nodes| && Linked(l, t, order, pos) && Within(order, |v|) && Erasable(l, t, index)
    requires l2 == EraseNode(l, t, index) && v2 == EraseValue(v, index) && next == EraseNext(l, index)
    ensures pos[index] < |order|
    ensures var k := pos[index];
      var o2, p2 := OrderAfterErase(order, index, k), PosAfterErase(pos, index, k);
      |v2| == |l2.nodes| && Linked(l2, t, o2, p2) && Within(o2, |v2|) &&
      InOrder(v2, o2) == InOrder(v, order)[..k] + InOrder(v, order)[k + 1..] &&
      next == (if k < |o2| then o2[k] else t)
  {
    EraseLinked(l, t, order, pos, index);
    EraseValues(v, order, pos, index);
    EraseNextFollows(l, t, order, pos, index);
  }

  /**
   * Erasing the first of two elements, as written, returns slot 1, which
   * the erase has just removed; the corrected slot is 0, where the
   * second element now lives.
   */
  lemma EraseNextAsWrittenStale()
    ensures var l := Links([Node(9, 1), Node(0, 9)], 0, 1);
      Linked(l, 9, [0, 1], [0, 1]) &&
      EraseNextAsWritten(l, 0) == 1 && |EraseNode(l, 9, 0).nodes| == 1 &&
      EraseNext(l, 0) == 0 && OrderAfterErase([0, 1], 0, 0) == [0]
  {
    var l := Links([Node(9, 1), Node(0, 9)], 0, 1);
    assert SlotAt([0, 1], [0, 1], 0) && SlotAt([0, 1], [0, 1], 1);
    assert PosOf([0, 1], [0, 1], 0) && PosOf([0, 1], [0, 1], 1);
    assert LinkAt(l, 9, [0, 1], 0) && LinkAt(l, 9, [0, 1], 1);
    assert Renamed(Removed([0, 1], 0), 1, 0)[0] == 0;
  }

  /** Every slot of `order` is a value index. */
  predicate Within(order: seq<nat>, n: nat)
  {
    forall k :: 0 <= k < |order| ==> order[k] < n
  }

  /** The values in list order: what iteration from `begin()` yields. */
  function InOrder<T>(values: seq<T>, order: seq<nat>): (r: seq<T>)
    requires Within(order, |values|)
    ensures |r| == |order| && forall k :: 0 <= k < |order| ==> r[k] == values[order[k]]
  {
    seq(|order|, k requires 0 <= k < |order| => values[order[k]])
  }

  /** Erasing the slot at position `k` removes exactly the `k`-th value of the list order. */
  lemma EraseValues<T>(values: seq<T>, order: seq<nat>, pos: seq<nat>, index: nat)
    requires Perm(order, pos) && |values| == |order| && index < |values|
    ensures pos[index] < |order| && Within(order, |values|)
    ensures var o2 := OrderAfterErase(order, index, pos[index]);
      var e := InOrder(values, order);
      Within(o2, |values| - 1) &&
      InOrder(EraseValue(values, index), o2) == e[..pos[index]] + e[pos[index] + 1..]
  {
    SlotsInRange(order, pos);
    assert PosOf(order, pos, index);
    var k := pos[index];
    var o2 := OrderAfterErase(order, index, k);
    var e := InOrder(values, order);
    var v := EraseValue(values, index);
    forall j | 0 <= j < |o2|
      ensures o2[j] < |values| - 1 && v[o2[j]] == (e[..k] + e[k + 1..])[j]
    {
      RemovedDistinct(order, pos, k, j, j);
    }
    assert InOrder(v, o2) == e[..k] + e[k + 1..];
  }

  /** Slot `a` called `b` and `b` called `a`. */
  function Sig(x: nat, a: nat, b: nat): nat
  {
    if x == a then b else if x == b then a else x
  }

  function SigNode(y: Node, a: nat, b: nat): Node
  {
    Node(Sig(y.prev, a, b), Sig(y.next, a, b))
  }

  /** The links with slots `a` and `b` exchanged: each takes the other's node and every pointer follows. */
  function Exchanged(l: Links, a: nat, b: nat): (r: Links)
    requires a < |l.nodes| && b < |l.nodes|
    ensures |r.nodes| == |l.nodes| && r.head == Sig(l.head, a, b) && r.tail == Sig(l.tail, a, b)
    ensures forall x :: 0 <= x < |l.nodes| ==> r.nodes[x] == SigNode(l.nodes[Sig(x, a, b)], a, b)
  {
    Links(seq(|l.nodes|, x requires 0 <= x < |l.nodes| => SigNode(l.nodes[Sig(x, a, b)], a, b)),
          Sig(l.head, a, b), Sig(l.tail, a, b))
  }

  /** `order` with `a` and `b` exchanged. */
  function SigOrder(order: seq<nat>, a: nat, b: nat): (r: seq<nat>)
    ensures |r| == |order| && forall j :: 0 <= j < |order| ==> r[j] == Sig(order[j], a, b)
  {
    seq(|order|, j requires 0 <= j < |order| => Sig(order[j], a, b))
  }

  /** Positions with `a` and `b` exchanged. */
  function SigPos(pos: seq<nat>, a: nat, b: nat): (r: seq<nat>)
    requires a < |pos| && b < |pos|
    ensures |r| == |pos| && forall i :: 0 <= i < |pos| ==> r[i] == pos[Sig(i, a, b)]
  {
    seq(|pos|, i requires 0 <= i < |pos| => pos[Sig(i, a, b)])
  }

  /** Exchanging two slots in `order` is matched by exchanging their positions. */
  lemma PermExchanged(order: seq<nat>, pos: seq<nat>, a: nat, b: nat)
    requires Perm(order, pos) && a < |order| && b < |order|
    ensures Perm(SigOrder(order, a, b), SigPos(pos, a, b))
  {
    var o := SigOrder(order, a, b);
    var p := SigPos(pos, a, b);
    forall j | 0 <= j < |order|
      ensures SlotAt(o, p, j)
    {
      assert SlotAt(order, pos, j);
    }
    forall i | 0 <= i < |order|
      ensures PosOf(o, p, i)
    {
      assert PosOf(order, pos, Sig(i, a, b));
    }
  }

  /** The chain condition at position `j` after exchanging two slots. */
  lemma ExchangedAt(l: Links, t: nat, order: seq<nat>, a: nat, b: nat, j: nat)
    requires a < |l.nodes| <= t && b < |l.nodes| && j < |order| && LinkAt(l, t, order, j)
    requires j > 0 ==> order[j - 1] < |l.nodes|
    requires j + 1 < |order| ==> order[j + 1] < |l.nodes|
    ensures LinkAt(Exchanged(l, a, b), t, SigOrder(order, a, b), j)
  {
    var o := SigOrder(order, a, b);
    assert PrevAt(o, j, t) == Sig(PrevAt(order, j, t), a, b);
    assert NextAt(o, j, t) == Sig(NextAt(order, j, t), a, b);
  }

  /** Exchanging two slots keeps the list linked, with the two slots at each other's positions. */
  lemma ExchangedLinked(l: Links, t: nat, order: seq<nat>, pos: seq<nat>, a: nat, b: nat)
    requires Linked(l, t, order, pos) && a < |l.nodes| && b < |l.nodes|
    ensures Linked(Exchanged(l, a, b), t, SigOrder(order, a, b), SigPos(pos, a, b))
  {
    var n := |order|;
    PermExchanged(order, pos, a, b);
    SlotsInRange(order, pos);
    forall j | 0 <= j < n
      ensures LinkAt(Exchanged(l, a, b), t, SigOrder(order, a, b), j)
    {
      assert LinkAt(l, t, order, j);
      ExchangedAt(l, t, order, a, b, j);
    }
  }

  /** What `swap_nodes(left, right)` needs: two slots with bounded links, or a case it returns early on. */
  predicate Swappable(l: Links, t: nat, left: nat, right: nat)
  {
    left == right || left == t || right == t ||
    (left < |l.nodes| && right < |l.nodes| &&
     Bounded(l.nodes[left], t, |l.nodes|) && Bounded(l.nodes[right], t, |l.nodes|))
  }

  /**
   * `swap_nodes(left, right)`: the two slots exchange their places in
   * the chain, with separate cases for `left` just before `right`,
   * `right` just before `left`, and neither.
   */
  function SwapNodes(l: Links, t: nat, left: nat, right: nat): (r: Links)
    requires Swappable(l, t, left, right)
    ensures |r.nodes| == |l.nodes|
  {
    if left == right || left == t || right == t then l
    else
      var L := l.nodes[left];
      var R := l.nodes[right];
      if R.prev == left then
        var l1 := l.(nodes := l.nodes[left := Node(L.next, R.next)][right := Node(L.prev, R.prev)]);
        PointPrev(PointNext(l1, t, L.prev, right), t, R.next, left)
      else if R.next == left then
        var l1 := l.(nodes := l.nodes[left := Node(R.prev, L.prev)][right := Node(R.next, L.next)]);
        PointNext(PointPrev(l1, t, L.next, right), t, R.prev, left)
      else
        var l1 := l.(nodes := l.nodes[left := Node(R.prev, R.next)][right := Node(L.prev, L.next)]);
        PointPrev(PointNext(PointPrev(PointNext(l1, t, L.prev, right), t, L.next, right), t, R.prev, left), t, R.next, left)
  }

  /** Two positions hold the same slot only when they are the same position. */
  lemma Injective(order: seq<nat>, pos: seq<nat>)
    requires Perm(order, pos)
    ensures forall j, j' :: 0 <= j < |order| && 0 <= j' < |order| && order[j] == order[j'] ==> j == j'
  {
    forall j, j' | 0 <= j < |order| && 0 <= j' < |order| && order[j] == order[j']
      ensures j == j'
    {
      assert SlotAt(order, pos, j) && SlotAt(order, pos, j');
    }
  }

  /** In a linked list `next` and `prev` are inverse, no node points at itself, and only the ends point at the terminator. */
  lemma Pointers(l: Links, t: nat, order: seq<nat>, pos: seq<nat>, x: nat, y: nat)
    requires Linked(l, t, order, pos) && x < |l.nodes| && y < |l.nodes|
    ensures l.nodes[x].next == y <==> l.nodes[y].prev == x
    ensures l.nodes[x].next != x && l.nodes[x].prev != x
    ensures l.nodes[x].prev == t <==> x == l.head
    ensures l.nodes[x].next == t <==> x == l.tail
    ensures Bounded(l.nodes[x], t, |l.nodes|)
  {
    NodeBounded(l, t, order, pos, x);
    NodeBounded(l, t, order, pos, y);
    assert LinkAt(l, t, order, 0) && LinkAt(l, t, order, |order| - 1);
    var k := pos[x];
    if k > 0 {
      assert SlotAt(order, pos, k - 1);
    }
    if k + 1 < |order| {
      assert SlotAt(order, pos, k + 1);
    }
    Injective(order, pos);
  }

  /** What `swap_nodes` writes when `left` is just before `right`. */
  lemma SwapShapeBefore(l: Links, t: nat, left: nat, right: nat, x: nat)
    requires left < |l.nodes| && right < |l.nodes| && left != right && x < |l.nodes| <= t
    requires Swappable(l, t, left, right) && l.nodes[right].prev == left
    requires l.nodes[left].prev != left && l.nodes[left].prev != right
    requires l.nodes[right].next != left && l.nodes[right].next != right
    requires l.nodes[left].prev != t ==> l.nodes[left].prev != l.nodes[right].next
    ensures var r := SwapNodes(l, t, left, right);
      var L := l.nodes[left];
      var R := l.nodes[right];
      r.head == (if L.prev == t then right else l.head) &&
      r.tail == (if R.next == t then left else l.tail) &&
      r.nodes[x] == if x == left then Node(L.next, R.next) else if x == right then Node(L.prev, R.prev)
                    else Node(if x == R.next then left else l.nodes[x].prev, if x == L.prev then right else l.nodes[x].next)
  {
  }

  /** What `swap_nodes` writes when `right` is just before `left`. */
  lemma SwapShapeAfter(l: Links, t: nat, left: nat, right: nat, x: nat)
    requires left < |l.nodes| && right < |l.nodes| && left != right && x < |l.nodes| <= t
    requires Swappable(l, t, left, right) && l.nodes[right].prev != left && l.nodes[right].next == left
    requires l.nodes[left].next != left && l.nodes[left].next != right
    requires l.nodes[right].prev != left && l.nodes[right].prev != right
    requires l.nodes[left].next != t ==> l.nodes[left].next != l.nodes[right].prev
    ensures var r := SwapNodes(l, t, left, right);
      var L := l.nodes[left];
      var R := l.nodes[right];
      r.head == (if R.prev == t then left else l.head) &&
      r.tail == (if L.next == t then right else l.tail) &&
      r.nodes[x] == if x == left then Node(R.prev, L.prev) else if x == right then Node(R.next, L.next)
                    else Node(if x == L.next then right else l.nodes[x].prev, if x == R.prev then left else l.nodes[x].next)
  {
  }

  /** When the two slots are not neighbours, each end of the list follows the slot it was. */
  lemma SwapEndsApart(l: Links, t: nat, left: nat, right: nat)
    requires left < |l.nodes| && right < |l.nodes| && left != right && |l.nodes| <= t
    requires Swappable(l, t, left, right) && l.nodes[right].prev != left && l.nodes[right].next != left
    ensures var r := SwapNodes(l, t, left, right);
      var L := l.nodes[left];
      var R := l.nodes[right];
      r.head == (if R.prev == t then left else if L.prev == t then right else l.head) &&
      r.tail == (if R.next == t then left else if L.next == t then right else l.tail)
  {
  }

  /** What `swap_nodes` writes when the two slots are not neighbours. */
  lemma SwapShapeApart(l: Links, t: nat, left: nat, right: nat, x: nat)
    requires left < |l.nodes| && right < |l.nodes| && left != right && x < |l.nodes| <= t
    requires Swappable(l, t, left, right) && l.nodes[right].prev != left && l.nodes[right].next != left
    requires l.nodes[left].prev != left && l.nodes[left].prev != right && l.nodes[left].next != left && l.nodes[left].next != right
    requires l.nodes[right].prev != right && l.nodes[right].next != right
    requires l.nodes[left].prev != t ==> l.nodes[left].prev != l.nodes[right].prev
    requires l.nodes[left].next != t ==> l.nodes[left].next != l.nodes[right].next
    ensures var L := l.nodes[left];
      var R := l.nodes[right];
      SwapNodes(l, t, left, right).nodes[x] ==
        if x == left then R else if x == right then L
        else Node(if x == R.next then left else if x == L.next then right else l.nodes[x].prev,
                  if x == R.prev then left else if x == L.prev then right else l.nodes[x].next)
  {
    var L, R := l.nodes[left], l.nodes[right];
    var l1 := l.(nodes := l.nodes[left := Node(R.prev, R.next)][right := Node(L.prev, L.next)]);
    var l2 := PointNext(l1, t, L.prev, right);
    var l3 := PointPrev(l2, t, L.next, right);
    var l4 := PointNext(l3, t, R.prev, left);
    var l5 := PointPrev(l4, t, R.next, left);
    assert SwapNodes(l, t, left, right) == l5;
    PointNextAt(l1, t, L.prev, right, x);
    PointPrevAt(l2, t, L.next, right, x);
    PointNextAt(l3, t, R.prev, left, x);
    PointPrevAt(l4, t, R.next, left, x);
    var n := l5.nodes[x];
    if x == left {
      assert n.prev == R.prev && n.next == R.next;
    } else if x == right {
      assert n.prev == L.prev && n.next == L.next;
    } else {
      assert n.prev == if x == R.next then left else if x == L.next then right else l.nodes[x].prev;
      assert n.next == if x == R.prev then left else if x == L.prev then right else l.nodes[x].next;
    }
  }

  /** The facts about the two slots' neighbours that every case of `swap_nodes` relies on. */
  lemma SwapNeighbours(l: Links, t: nat, order: seq<nat>, pos: seq<nat>, left: nat, right: nat)
    requires Linked(l, t, order, pos) && left < |l.nodes| && right < |l.nodes| && left != right
    ensures Swappable(l, t, left, right)
    ensures l.nodes[left].prev != left && l.nodes[left].next != left
    ensures l.nodes[right].prev != right && l.nodes[right].next != right
    ensures l.nodes[right].prev == left <==> l.nodes[left].next == right
    ensures l.nodes[left].prev == right <==> l.nodes[right].next == left
    ensures l.nodes[left].prev != t && l.nodes[left].prev == l.nodes[right].prev ==> false
    ensures l.nodes[left].next != t && l.nodes[left].next == l.nodes[right].next ==> false
    ensures l.nodes[right].prev == left ==> l.nodes[left].prev != right && (l.nodes[left].prev != t ==> l.nodes[left].prev != l.nodes[right].next)
    ensures l.nodes[right].next == left ==> l.nodes[right].prev != left && (l.nodes[left].next != t ==> l.nodes[left].next != l.nodes[right].prev)
  {
    var n := |order|;
    Pointers(l, t, order, pos, left, right);
    Pointers(l, t, order, pos, right, left);
    NodeBounded(l, t, order, pos, left);
    NodeBounded(l, t, order, pos, right);
    Injective(order, pos);
    var kl, kr := pos[left], pos[right];
    if kl > 0 { assert SlotAt(order, pos, kl - 1); }
    if kl + 1 < n { assert SlotAt(order, pos, kl + 1); }
    if kr > 0 { assert SlotAt(order, pos, kr - 1); }
    if kr + 1 < n { assert SlotAt(order, pos, kr + 1); }
  }

  /** The pointer facts about slot `x` that relate `swap_nodes` to `Exchanged` at `x`. */
  predicate SlotFacts(l: Links, t: nat, left: nat, right: nat, x: nat)
    requires left < |l.nodes| && right < |l.nodes| && x < |l.nodes|
  {
    var L := l.nodes[left];
    var R := l.nodes[right];
    var X := l.nodes[x];
    (L.next == x <==> X.prev == left) && (L.prev == x <==> X.next == left) &&
    (R.next == x <==> X.prev == right) && (R.prev == x <==> X.next == right) &&
    X.next != x && X.prev != x
  }

  /** `SlotFacts` hold for every slot of a linked list. */
  lemma SlotFactsHold(l: Links, t: nat, order: seq<nat>, pos: seq<nat>, left: nat, right: nat, x: nat)
    requires Linked(l, t, order, pos) && left < |l.nodes| && right < |l.nodes| && x < |l.nodes|
    ensures SlotFacts(l, t, left, right, x)
  {
    Pointers(l, t, order, pos, x, left);
    Pointers(l, t, order, pos, x, right);
    Pointers(l, t, order, pos, left, x);
    Pointers(l, t, order, pos, right, x);
  }

  /** `swap_nodes` of `left` just before `right` is `Exchanged` at slot `x`. */
  lemma SwapSlotBefore(l: Links, t: nat, left: nat, right: nat, x: nat)
    requires left < |l.nodes| && right < |l.nodes| && left != right && x < |l.nodes| <= t
    requires Swappable(l, t, left, right) && l.nodes[right].prev == left && l.nodes[left].next == right
    requires l.nodes[left].prev != left && l.nodes[left].prev != right
    requires l.nodes[right].next != left && l.nodes[right].next != right
    requires l.nodes[left].prev != t ==> l.nodes[left].prev != l.nodes[right].next
    requires SlotFacts(l, t, left, right, x) && SlotFacts(l, t, left, right, Sig(x, left, right))
    ensures SwapNodes(l, t, left, right).nodes[x] == Exchanged(l, left, right).nodes[x]
  {
    SwapShapeBefore(l, t, left, right, x);
  }

  /** `swap_nodes` of `right` just before `left` is `Exchanged` at slot `x`. */
  lemma SwapSlotAfter(l: Links, t: nat, left: nat, right: nat, x: nat)
    requires left < |l.nodes| && right < |l.nodes| && left != right && x < |l.nodes| <= t
    requires Swappable(l, t, left, right) && l.nodes[right].prev != left && l.nodes[right].next == left
    requires l.nodes[left].prev == right
    requires l.nodes[left].next != left && l.nodes[left].next != right
    requires l.nodes[right].prev != left && l.nodes[right].prev != right
    requires l.nodes[left].next != t ==> l.nodes[left].next != l.nodes[right].prev
    requires SlotFacts(l, t, left, right, x) && SlotFacts(l, t, left, right, Sig(x, left, right))
    ensures SwapNodes(l, t, left, right).nodes[x] == Exchanged(l, left, right).nodes[x]
  {
    SwapShapeAfter(l, t, left, right, x);
  }

  /** `swap_nodes` of two slots that are not neighbours is `Exchanged` at slot `x`. */
  lemma SwapSlotApart(l: Links, t: nat, left: nat, right: nat, x: nat)
    requires left < |l.nodes| && right < |l.nodes| && left != right && x < |l.nodes| <= t
    requires Swappable(l, t, left, right) && l.nodes[right].prev != left && l.nodes[right].next != left
    requires l.nodes[left].prev != right && l.nodes[left].next != right
    requires l.nodes[left].prev != left && l.nodes[left].next != left
    requires l.nodes[right].prev != right && l.nodes[right].next != right
    requires l.nodes[left].prev != t ==> l.nodes[left].prev != l.nodes[right].prev
    requires l.nodes[left].next != t ==> l.nodes[left].next != l.nodes[right].next
    requires SlotFacts(l, t, left, right, x) && SlotFacts(l, t, left, right, Sig(x, left, right))
    ensures SwapNodes(l, t, left, right).nodes[x] == Exchanged(l, left, right).nodes[x]
  {
    SwapShapeApart(l, t, left, right, x);
  }

  /** `swap_nodes` on two slots of a linked list is `Exchanged`, slot by slot. */
  lemma SwapSlot(l: Links, t: nat, order: seq<nat>, pos: seq<nat>, left: nat, right: nat, x: nat)
    requires Linked(l, t, order, pos) && left < |l.nodes| && right < |l.nodes| && left != right && x < |l.nodes|
    ensures Swappable(l, t, left, right)
    ensures SwapNodes(l, t, left, right).nodes[x] == Exchanged(l, left, right).nodes[x]
  {
    SwapNeighbours(l, t, order, pos, left, right);
    SlotFactsHold(l, t, order, pos, left, right, x);
    SlotFactsHold(l, t, order, pos, left, right, Sig(x, left, right));
    if l.nodes[right].prev == left {
      SwapSlotBefore(l, t, left, right, x);
    } else if l.nodes[right].next == left {
      SwapSlotAfter(l, t, left, right, x);
    } else {
      SwapSlotApart(l, t, left, right, x);
    }
  }

  /** After `swap_nodes`, each end of the list is the slot exchanged with the old end. */
  lemma SwapEnds(l: Links, t: nat, order: seq<nat>, pos: seq<nat>, left: nat, right: nat)
    requires Linked(l, t, order, pos) && left < |l.nodes| && right < |l.nodes| && left != right
    ensures Swappable(l, t, left, right)
    ensures SwapNodes(l, t, left, right).head == Sig(l.head, left, right)
    ensures SwapNodes(l, t, left, right).tail == Sig(l.tail, left, right)
  {
    SwapNeighbours(l, t, order, pos, left, right);
    Pointers(l, t, order, pos, left, right);
    Pointers(l, t, order, pos, right, left);
    if l.nodes[right].prev == left {
      SwapShapeBefore(l, t, left, right, left);
    } else if l.nodes[right].next == left {
      SwapShapeAfter(l, t, left, right, left);
    } else {
      SwapEndsApart(l, t, left, right);
    }
  }

  /** `swap_nodes(left, right)` exchanges the two slots' places in the chain. */
  lemma SwapIsExchange(l: Links, t: nat, order: seq<nat>, pos: seq<nat>, left: nat, right: nat)
    requires Linked(l, t, order, pos) && left < |l.nodes| && right < |l.nodes| && left != right
    ensures Swappable(l, t, left, right)
    ensures SwapNodes(l, t, left, right) == Exchanged(l, left, right)
  {
    SwapEnds(l, t, order, pos, left, right);
    var r := SwapNodes(l, t, left, right);
    var e := Exchanged(l, left, right);
    forall x | 0 <= x < |l.nodes|
      ensures r.nodes[x] == e.nodes[x]
    {
      SwapSlot(l, t, order, pos, left, right, x);
    }
    assert r.nodes == e.nodes;
  }

  /** The values in index order are the list order of the default links. */
  lemma InOrderIota<T>(values: seq<T>)
    ensures Within(Iota(|values|), |values|) && InOrder(values, Iota(|values|)) == values
  {
  }

  /** A new slot linked at position `k` puts its value at position `k` of the list order. */
  lemma InOrderInsert<T>(values: seq<T>, order: seq<nat>, v: T, k: nat)
    requires Within(order, |values|) && |order| == |values| && k <= |order|
    ensures Within(OrderAfterInsert(order, k), |values| + 1)
    ensures var e := InOrder(values, order);
      InOrder(values + [v], OrderAfterInsert(order, k)) == e[..k] + [v] + e[k..]
  {
    var o := OrderAfterInsert(order, k);
    var e := InOrder(values, order);
    assert Within(o, |values| + 1);
    var r := InOrder(values + [v], o);
    forall j | 0 <= j < |r|
      ensures r[j] == (e[..k] + [v] + e[k..])[j]
    {
    }
    assert r == e[..k] + [v] + e[k..];
  }

  /** Exchanging two slots exchanges their values in the list order. */
  lemma InOrderExchanged<T>(values: seq<T>, order: seq<nat>, pos: seq<nat>, a: nat, b: nat)
    requires Perm(order, pos) && |values| == |order| && a < |order| && b < |order|
    ensures pos[a] < |order| && pos[b] < |order|
    ensures Within(order, |values|) && Within(SigOrder(order, a, b), |values|)
    ensures var e := InOrder(values, order);
      InOrder(values, SigOrder(order, a, b)) == e[pos[a] := e[pos[b]]][pos[b] := e[pos[a]]]
  {
    SlotsInRange(order, pos);
    assert PosOf(order, pos, a) && PosOf(order, pos, b);
    var o := SigOrder(order, a, b);
    var e := InOrder(values, order);
    var swapped := e[pos[a] := e[pos[b]]][pos[b] := e[pos[a]]];
    var r := InOrder(values, o);
    forall k | 0 <= k < |o|
      ensures r[k] == swapped[k]
    {
      assert SlotAt(order, pos, k);
    }
    assert r == swapped;
  }

  /** Reading the order backwards reads the values backwards. */
  lemma InOrderBackwards<T>(values: seq<T>, order: seq<nat>)
    requires Within(order, |values|)
    ensures Within(Backwards(order), |values|)
    ensures InOrder(values, Backwards(order)) == Backwards(InOrder(values, order))
  {
    assert Within(Backwards(order), |values|);
    assert InOrder(values, Backwards(order)) == Backwards(InOrder(values, order));
  }

  /**
   * `ktu::list<T, U>` in place: the values, their nodes, `head` and
   * `tail`. `terminator` is the largest value of the index type, which is
   * also `max_size()`; `order` and `pos` record the chain.
   */
  class List<T> {
    var values: seq<T>
    var nodes: seq<Node>
    var head: nat
    var tail: nat
    const terminator: nat
    ghost var order: seq<nat>
    ghost var pos: seq<nat>

    /** The link state. */
    function Value(): Links
      reads this
    {
      Links(nodes, head, tail)
    }

    /** One node per value, chained in `order`. */
    ghost predicate Valid()
      reads this
    {
      |values| == |nodes| && Linked(Value(), terminator, order, pos) && Within(order, |values|)
    }

    /** The values in list order, as iteration from `begin()` visits them. */
    ghost function Elements(): (r: seq<T>)
      requires Valid()
      reads this
      ensures |r| == |nodes|
    {
      InOrder(values, order)
    }

    /** An empty list: `head` and `tail` are the terminator. */
    constructor (terminator: nat)
      ensures Valid() && Elements() == [] && this.terminator == terminator
      ensures Value() == Links([], terminator, terminator)
    {
      values := [];
      nodes := [];
      head, tail := terminator, terminator;
      this.terminator := terminator;
      order, pos := [], [];
    }

    /** `empty()`: no nodes. */
    method Empty() returns (r: bool)
      requires Valid()
      ensures r <==> Elements() == []
    {
      r := |nodes| == 0;
    }

    /** `front()`: the value of the head slot. */
    method Front() returns (v: T)
      requires Valid() && |nodes| > 0
      ensures v == Elements()[0]
    {
      assert LinkAt(Value(), terminator, order, 0);
      v := values[head];
    }

    /** `back()`: the value of the tail slot. */
    method Back() returns (v: T)
      requires Valid() && |nodes| > 0
      ensures v == Elements()[|nodes| - 1]
    {
      assert LinkAt(Value(), terminator, order, |order| - 1);
      v := values[tail];
    }

    /** Slot `at` gets `to` as its next, or `head` becomes `to` when `at` is the terminator. */
    method LinkNext(at: nat, to: nat)
      requires at == terminator || at < |nodes|
      modifies this
      ensures Value() == PointNext(old(Value()), terminator, at, to)
      ensures values == old(values) && order == old(order) && pos == old(pos)
    {
      if at == terminator {
        head := to;
      } else {
        nodes := nodes[at := nodes[at].(next := to)];
      }
    }

    /** Slot `at` gets `to` as its prev, or `tail` becomes `to` when `at` is the terminator. */
    method LinkPrev(at: nat, to: nat)
      requires at == terminator || at < |nodes|
      modifies this
      ensures Value() == PointPrev(old(Value()), terminator, at, to)
      ensures values == old(values) && order == old(order) && pos == old(pos)
    {
      if at == terminator {
        tail := to;
      } else {
        nodes := nodes[at := nodes[at].(prev := to)];
      }
    }

    /**
     * `set_default_nodes(count)`: `nodes` resized to `count` and slots
     * `0 .. count - 1` linked in index order; with no nodes, `head` and
     * `tail` become the terminator.
     */
    method SetDefaultNodes(count: nat)
      requires count <= terminator
      modifies this
      ensures values == old(values) && Value() == DefaultLinks(count, terminator)
      ensures order == Iota(count) && pos == Iota(count)
    {
      nodes := if count <= |nodes| then nodes[..count] else nodes + seq(count - |nodes|, _ => Node(0, 0));
      order, pos := Iota(count), Iota(count);
      if count == 0 {
        head, tail := terminator, terminator;
        return;
      }
      nodes := nodes[0 := nodes[0].(prev := terminator)];
      head := 0;
      tail := count - 1;
      if count == 1 {
        nodes := nodes[0 := nodes[0].(next := terminator)];
        return;
      }
      nodes := nodes[0 := nodes[0].(next := 1)];
      var i := 1;
      while i < count
        invariant 1 <= i <= count && |nodes| == count
        invariant forall j :: 0 <= j < i ==> nodes[j] == Node(if j == 0 then terminator else j - 1, j + 1)
        invariant values == old(values) && head == 0 && tail == count - 1
        invariant order == Iota(count) && pos == Iota(count)
      {
        nodes := nodes[i := Node(i - 1, i + 1)];
        i := i + 1;
      }
      nodes := nodes[count - 1 := nodes[count - 1].(next := terminator)];
      assert nodes == DefaultNodes(count, terminator);
    }

    /**
     * `operator=(vector)`: `check_bounds`, then the values and the
     * default links. A size past `max_size()` is refused (the source
     * throws) and nothing changes.
     */
    method Assign(vs: seq<T>) returns (ok: bool)
      modifies this
      ensures ok <==> |vs| <= terminator
      ensures ok ==> Valid() && values == vs && Value() == DefaultLinks(|vs|, terminator) && Elements() == vs
      ensures !ok ==> unchanged(this)
    {
      ok := CheckBounds(|vs|, terminator);
      if !ok {
        return;
      }
      values := vs;
      SetDefaultNodes(|vs|);
      DefaultLinked(|vs|, terminator);
      InOrderIota(vs);
    }

    /** `clear()`: no values, no nodes, both ends the terminator. */
    method Clear()
      modifies this
      ensures Valid() && Elements() == [] && Value() == Links([], terminator, terminator)
    {
      values := [];
      nodes := [];
      head, tail := terminator, terminator;
      order, pos := [], [];
    }

    /** `push_back(value)`: the value appended, its slot linked after the tail. */
    method PushBack(v: T)
      requires Valid() && |nodes| < terminator
      modifies this
      ensures Valid() && values == old(values) + [v]
      ensures Value() == PushBackNode(old(Value()), terminator)
      ensures Elements() == old(Elements()) + [v]
    {
      ghost var l := Value();
      SlotsInRange(order, pos);
      InOrderInsert(values, order, v, |order|);
      assert order + [|order|] == OrderAfterInsert(order, |order|);
      PushBackLinked(l, terminator, order, pos);
      var n := |nodes|;
      values := values + [v];
      nodes := nodes + [Node(tail, terminator)];
      if tail == terminator {
        head := n;
      } else {
        nodes := nodes[tail := nodes[tail].(next := n)];
      }
      tail := n;
      order, pos := order + [n], pos + [n];
    }

    /** `push_front(value)`: the value appended, its slot linked before the head. */
    method PushFront(v: T)
      requires Valid() && |nodes| < terminator
      modifies this
      ensures Valid() && values == old(values) + [v]
      ensures Value() == PushFrontNode(old(Value()), terminator)
      ensures Elements() == [v] + old(Elements())
    {
      ghost var l := Value();
      SlotsInRange(order, pos);
      InOrderInsert(values, order, v, 0);
      assert [|order|] + order == OrderAfterInsert(order, 0);
      PushFrontLinked(l, terminator, order, pos);
      var n := |nodes|;
      values := values + [v];
      nodes := nodes + [Node(terminator, head)];
      if head == terminator {
        tail := n;
      } else {
        nodes := nodes[head := nodes[head].(prev := n)];
      }
      head := n;
      order, pos := [n] + order, PosAfterFront(pos);
    }

    /**
     * `insert(pos, value)`: the value appended and its slot linked just
     * before slot `index`, or after the tail when `index` is the
     * terminator; returns the new slot.
     */
    method Insert(index: nat, v: T) returns (it: nat)
      requires Valid() && |nodes| < terminator && (index == terminator || index < |nodes|)
      modifies this
      ensures Valid() && it == old(|nodes|) && values == old(values) + [v]
      ensures Insertable(old(Value()), terminator, index) && Value() == InsertNode(old(Value()), terminator, index)
      ensures var k := if index == terminator then old(|order|) else old(pos[index]);
        k <= old(|order|) && Elements() == old(Elements())[..k] + [v] + old(Elements())[k..]
    {
      ghost var l := Value();
      SlotsInRange(order, pos);
      InsertLinked(l, terminator, order, pos, index);
      var n := |nodes|;
      values := values + [v];
      if index == terminator {
        InOrderInsert(old(values), order, v, |order|);
        assert order + [n] == OrderAfterInsert(order, |order|);
        nodes := nodes + [Node(tail, terminator)];
        if tail == terminator {
          head := n;
        } else {
          nodes := nodes[tail := nodes[tail].(next := n)];
        }
        tail := n;
        order, pos := order + [n], pos + [n];
      } else {
        var k := pos[index];
        InOrderInsert(old(values), order, v, k);
        NodeBounded(l, terminator, order, pos, index);
        var before := nodes[index].prev;
        nodes := nodes + [Node(before, index)];
        nodes := nodes[index := nodes[index].(prev := n)];
        if before == terminator {
          head := n;
        } else {
          nodes := nodes[before := nodes[before].(next := n)];
        }
        order, pos := OrderAfterInsert(order, k), PosAfterInsert(pos, k);
      }
      it := n;
    }

    /** The first half of `erase_index(index)`: the neighbours of `index` linked to each other. */
    method UnlinkIndex(index: nat)
      requires index < |nodes| && Bounded(nodes[index], terminator, |nodes|)
      modifies this
      ensures Value() == Unlinked(old(Value()), terminator, index)
      ensures values == old(values) && order == old(order) && pos == old(pos)
    {
      var before := nodes[index].prev;
      var after := nodes[index].next;
      LinkNext(before, after);
      LinkPrev(after, before);
    }

    /** The second half: the last slot's value and node moved into slot `index`, and its neighbours pointed at `index`. */
    method MoveLastInto(index: nat)
      requires index < |nodes| - 1 && |values| == |nodes| && Bounded(nodes[|nodes| - 1], terminator, |nodes|)
      modifies this
      ensures Value() == Relocated(old(Value()), terminator, index, old(|nodes|) - 1)
      ensures values == old(values)[index := old(values)[old(|values|) - 1]] && order == old(order) && pos == old(pos)
    {
      var last := |values| - 1;
      var lastPrev := nodes[last].prev;
      var lastNext := nodes[last].next;
      values := values[index := values[last]];
      nodes := nodes[index := nodes[last]];
      LinkNext(lastPrev, index);
      LinkPrev(lastNext, index);
    }

    /**
     * `erase_index(index)`: the slot unlinked, the last slot moved into
     * it, both vectors shortened by one. Returns the slot that now holds
     * the element after the erased one, or the terminator.
     */
    method EraseIndex(index: nat) returns (next: nat)
      requires Erasable(Value(), terminator, index) && |values| == |nodes| && |nodes| <= terminator
      modifies this
      ensures Value() == EraseNode(old(Value()), terminator, index) && values == EraseValue(old(values), index)
      ensures next == EraseNext(old(Value()), index) && order == old(order) && pos == old(pos)
    {
      var after := nodes[index].next;
      var last := |values| - 1;
      MoveOut(index);
      DropLast();
      next := if index < last && after == last then index else after;
    }

    /** `erase_index(index)` up to the final `pop_back()`: the links `Moved` describes. */
    method MoveOut(index: nat)
      requires Erasable(Value(), terminator, index) && |values| == |nodes| && |nodes| <= terminator
      modifies this
      ensures Value() == Moved(old(Value()), terminator, index) && |values| == |nodes|
      ensures var last := |old(values)| - 1;
        values == (if index < last then old(values)[index := old(values)[last]] else old(values))
      ensures order == old(order) && pos == old(pos)
    {
      ghost var l := Value();
      UnlinkIndex(index);
      ghost var u := Value();
      if index < |values| - 1 {
        UnlinkedBounded(l, terminator, index);
        MoveLastInto(index);
        MovedSteps(l, terminator, index, u, Value());
      } else {
        MovedSteps(l, terminator, index, u, u);
      }
    }

    /** The final `pop_back()` of values and nodes in `erase_index`. */
    method DropLast()
      requires |values| == |nodes| > 0
      modifies this
      ensures Value() == old(Value()).(nodes := old(nodes)[..|old(nodes)| - 1])
      ensures values == old(values)[..|old(values)| - 1] && order == old(order) && pos == old(pos)
    {
      values := values[..|values| - 1];
      nodes := nodes[..|nodes| - 1];
    }

    /**
     * `erase(pos)`: `erase_index` of the iterator's slot. The element at
     * that slot's position leaves the list order, and the returned slot
     * holds the element that followed it, or is the terminator.
     */
    method Erase(index: nat) returns (next: nat)
      requires Valid() && index < |nodes|
      modifies this
      ensures Valid()
      ensures var k := old(pos[index]);
        k < old(|order|) && Elements() == old(Elements())[..k] + old(Elements())[k + 1..] &&
        next == (if k < |order| then order[k] else terminator)
    {
      ghost var l, v, o, p := Value(), values, order, pos;
      NodeBounded(l, terminator, o, p, index);
      NodeBounded(l, terminator, o, p, |nodes| - 1);
      order, pos := OrderAfterErase(o, index, p[index]), PosAfterErase(p, index, p[index]);
      next := EraseIndex(index);
      ErasedList(l, terminator, v, o, p, index, Value(), values, next);
    }

    /** `pop_front()`: `erase_index(head)`. */
    method PopFront()
      requires Valid() && |nodes| > 0
      modifies this
      ensures Valid() && Elements() == old(Elements())[1..]
    {
      assert LinkAt(Value(), terminator, order, 0) && SlotAt(order, pos, 0);
      var next := Erase(head);
    }

    /** `pop_back()`: `erase_index(tail)`. */
    method PopBack()
      requires Valid() && |nodes| > 0
      modifies this
      ensures Valid() && Elements() == old(Elements())[..|old(Elements())| - 1]
    {
      assert LinkAt(Value(), terminator, order, |order| - 1) && SlotAt(order, pos, |order| - 1);
      var next := Erase(tail);
    }

    /**
     * `swap_nodes(left, right)`, step by step: nothing when the slots
     * are equal or either is the terminator, else the three cases.
     */
    method SwapNodesAt(left: nat, right: nat)
      requires Swappable(Value(), terminator, left, right)
      modifies this
      ensures Value() == SwapNodes(old(Value()), terminator, left, right)
      ensures values == old(values) && order == old(order) && pos == old(pos)
    {
      if left == right {
        return;
      }
      if left == terminator || right == terminator {
        return;
      }
      var leftPrev, leftNext := nodes[left].prev, nodes[left].next;
      var rightPrev, rightNext := nodes[right].prev, nodes[right].next;
      if rightPrev == left {
        nodes := nodes[left := Node(leftNext, rightNext)][right := Node(leftPrev, rightPrev)];
        LinkNext(leftPrev, right);
        LinkPrev(rightNext, left);
        return;
      }
      if rightNext == left {
        nodes := nodes[left := Node(rightPrev, leftPrev)][right := Node(rightNext, leftNext)];
        LinkPrev(leftNext, right);
        LinkNext(rightPrev, left);
        return;
      }
      nodes := nodes[left := Node(rightPrev, rightNext)][right := Node(leftPrev, leftNext)];
      LinkNext(leftPrev, right);
      LinkPrev(leftNext, right);
      LinkNext(rightPrev, left);
      LinkPrev(rightNext, left);
    }

    /**
     * `swap_nodes(left, right)` on a linked list: the two slots exchange
     * places in the chain, so their elements exchange positions in the
     * list order; nothing changes when they are equal or either is the
     * terminator.
     */
    method SwapSlots(left: nat, right: nat)
      requires Valid() && (left == terminator || left < |nodes|) && (right == terminator || right < |nodes|)
      modifies this
      ensures Valid() && values == old(values)
      ensures left == right || left == terminator || right == terminator ==>
        Value() == old(Value()) && Elements() == old(Elements())
      ensures left != right && left != terminator && right != terminator ==>
        Value() == Exchanged(old(Value()), left, right) &&
        var kl, kr := old(pos[left]), old(pos[right]);
        kl < old(|order|) && kr < old(|order|) &&
        Elements() == old(Elements())[kl := old(Elements())[kr]][kr := old(Elements())[kl]]
    {
      if left == right || left == terminator || right == terminator {
        SwapNodesAt(left, right);
        return;
      }
      ghost var l := Value();
      SwapIsExchange(l, terminator, order, pos, left, right);
      ExchangedLinked(l, terminator, order, pos, left, right);
      InOrderExchanged(values, order, pos, left, right);
      SwapNodesAt(left, right);
      order, pos := SigOrder(order, left, right), SigPos(pos, left, right);
      assert Linked(Value(), terminator, order, pos);
    }

    /** `reverse()`: `prev` and `next` exchanged in every node, then `head` and `tail`. */
    method Reverse()
      requires Valid()
      modifies this
      ensures Valid() && values == old(values) && Value() == Reversed(old(Value()))
      ensures Elements() == Backwards(old(Elements()))
    {
      ghost var l := Value();
      var i := 0;
      while i < |nodes|
        invariant 0 <= i <= |nodes| == |l.nodes|
        invariant forall j :: 0 <= j < i ==> nodes[j] == Node(l.nodes[j].next, l.nodes[j].prev)
        invariant forall j :: i <= j < |nodes| ==> nodes[j] == l.nodes[j]
        invariant head == l.head && tail == l.tail && values == old(values)
        invariant order == old(order) && pos == old(pos)
      {
        nodes := nodes[i := Node(nodes[i].next, nodes[i].prev)];
        i := i + 1;
      }
      head, tail := tail, head;
      assert nodes == Reversed(l).nodes;
      assert Value() == Reversed(l);
      ReverseLinked(l, terminator, order, pos);
      InOrderBackwards(values, order);
      order, pos := Backwards(order), Mirrored(pos, |order|);
      assert Linked(Value(), terminator, order, pos);
    }
  }
}
