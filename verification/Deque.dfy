/** The doubly linked deque of list.c. One end shrinks through `prev`, the other through `next`. */
module Deque {
  import opened CTypes

  class LNode<V> {
    var value: Ptr<V>
    var prev: LNode?<V>
    var next: LNode?<V>

    constructor (value: Ptr<V>, next: LNode?<V>)
      ensures this.value == value && this.next == next && prev == null
    {
      this.value, this.next, prev := value, next, null;
    }
  }

  /** `prev` and `next` of nodes[i] point at its neighbours. */
  ghost predicate LinkedAt<V>(nodes: seq<LNode<V>>, i: nat)
    requires i < |nodes|
    reads nodes`next, nodes`prev
  {
    && nodes[i].next == (if i + 1 < |nodes| then nodes[i + 1] else null)
    && nodes[i].prev == if i > 0 then nodes[i - 1] else null
  }

  ghost predicate Linked<V>(nodes: seq<LNode<V>>, head: LNode?<V>, tail: LNode?<V>)
    reads nodes`next, nodes`prev
  {
    && head == (if nodes == [] then null else nodes[0])
    && tail == (if nodes == [] then null else nodes[|nodes| - 1])
    && forall i {:trigger LinkedAt(nodes, i)} :: 0 <= i < |nodes| ==> LinkedAt(nodes, i)
  }

  ghost predicate DistinctNodes<V>(nodes: seq<LNode<V>>) {
    forall i, j :: 0 <= i < j < |nodes| ==> nodes[i] != nodes[j]
  }

  /** Whether there is memory for the i-th node of several. */
  predicate Supply(memory: seq<bool>, i: nat) {
    i < |memory| ==> memory[i]
  }

  /** How many of n nodes get their memory before the first that does not. */
  function Granted(memory: seq<bool>, n: nat): (g: nat)
    ensures g <= n && (g < n ==> g < |memory| && !memory[g])
    ensures forall i :: 0 <= i < g && i < |memory| ==> memory[i]
  {
    if n == 0 then 0
    else
      var g := Granted(memory, n - 1);
      if g == n - 1 && Supply(memory, n - 1) then n else g
  }

  /** There is memory for all n. */
  ghost predicate AllGranted(memory: seq<bool>, n: nat) {
    forall i :: 0 <= i < n && i < |memory| ==> memory[i]
  }

  lemma GrantedAll(memory: seq<bool>, n: nat)
    ensures AllGranted(memory, n) <==> Granted(memory, n) == n
  {
  }

  lemma {:induction false} GrantedStops(memory: seq<bool>, k: nat, n: nat)
    requires k < n && !Supply(memory, k) && Granted(memory, k) == k
    ensures Granted(memory, n) == k
  {
    if k < n - 1 {
      GrantedStops(memory, k, n - 1);
    }
  }

  lemma TakeOneMore<T>(base: seq<T>, s: seq<T>, n: nat)
    requires n < |s|
    ensures base + s[..n] + [s[n]] == base + s[..n + 1]
  {
  }

  class List<V> {
    var head: LNode?<V>
    var tail: LNode?<V>
    var length: nat
    ghost var nodes: seq<LNode<V>>

    ghost predicate Valid()
      reads this, nodes
    {
      DistinctNodes(nodes) && Linked(nodes, head, tail) && length == |nodes|
    }

    ghost function Repr(): set<object>
      reads this
    {
      var all: set<object> := set n | n in nodes;
      {this} + all
    }

    ghost function Contents(): (s: seq<Ptr<V>>)
      reads this, nodes
      ensures |s| == |nodes|
      ensures forall i {:trigger s[i]} :: 0 <= i < |s| ==> s[i] == nodes[i].value
    {
      seq(|nodes|, i requires 0 <= i < |nodes| reads this, nodes => nodes[i].value)
    }

    lemma ContentsAre(s: seq<Ptr<V>>)
      requires |s| == |nodes| && forall i :: 0 <= i < |s| ==> s[i] == nodes[i].value
      ensures Contents() == s
    {
    }

    constructor Empty()
      ensures Valid() && nodes == [] && fresh(Repr())
    {
      head, tail, length, nodes := null, null, 0, [];
    }

    /** `list_create`: null if there is no memory. */
    static method Create(memory: bool) returns (list: List?<V>)
      ensures list != null <==> memory
      ensures list != null ==> fresh(list.Repr()) && list.Valid() && list.Contents() == []
    {
      if !memory {
        return null;
      }
      list := new List.Empty();
    }

    /** `list_push`, where there is memory for a node or not */
    method Push(item: Ptr<V>, memory: bool) returns (ok: bool)
      requires Valid()
      modifies Repr()
      ensures Valid() && fresh(Repr() - old(Repr()))
      ensures ok == memory
      ensures Contents() == if ok then old(Contents()) + [item] else old(Contents())
    {
      if !memory {
        return false;
      }
      var node := new LNode(item, null);
      if head == null {
        head := node;
      }
      if tail != null {
        tail.next := node;
      }
      node.prev := tail;
      tail := node;
      length := length + 1;
      nodes := nodes + [node];
      forall i | 0 <= i < |nodes| ensures LinkedAt(nodes, i) {
        assert i < |nodes| - 1 ==> old(LinkedAt(nodes, i));
      }
      ContentsAre(old(Contents()) + [item]);
      return true;
    }

    /** `list_pop` */
    method Pop() returns (item: Ptr<V>)
      requires Valid()
      modifies Repr()
      ensures Valid() && Repr() <= old(Repr())
      ensures var s := old(Contents());
        if s == [] then item == Null && Contents() == [] else item == s[|s| - 1] && Contents() == s[..|s| - 1]
    {
      var node := tail;
      if node == null {
        return Null;
      }
      assert LinkedAt(nodes, |nodes| - 1);
      if tail == head {
        tail := null;
        head := null;
      } else {
        tail := tail.prev;
        tail.next := null;
      }
      length := length - 1;
      item := node.value;
      nodes := nodes[..|nodes| - 1];
      forall i | 0 <= i < |nodes| ensures LinkedAt(nodes, i) {
        assert old(LinkedAt(nodes, i));
      }
      ContentsAre(old(Contents())[..|nodes|]);
    }

    /** `list_unshift`, where there is memory for a node or not */
    method Unshift(item: Ptr<V>, memory: bool) returns (ok: bool)
      requires Valid()
      modifies Repr()
      ensures Valid() && fresh(Repr() - old(Repr()))
      ensures ok == memory
      ensures Contents() == if ok then [item] + old(Contents()) else old(Contents())
    {
      if !memory {
        return false;
      }
      var node := new LNode(item, head);
      LinkFirst(node);
      ContentsAre([item] + old(Contents()));
      return true;
    }

    /** Puts a new node in front. */
    method LinkFirst(node: LNode<V>)
      requires Valid() && node !in nodes && node.next == head && node.prev == null
      modifies this, nodes`prev
      ensures Valid() && nodes == [node] + old(nodes)
    {
      if head != null {
        head.prev := node;
      }
      head := node;
      if tail == null {
        tail := node;
      }
      length := length + 1;
      nodes := [node] + nodes;
      forall i | 0 <= i < |nodes| ensures LinkedAt(nodes, i) {
        assert i > 0 ==> old(LinkedAt(nodes, i - 1));
      }
    }

    /** `list_shift` */
    method Shift() returns (item: Ptr<V>)
      requires Valid()
      modifies Repr()
      ensures Valid() && Repr() <= old(Repr())
      ensures var s := old(Contents());
        if s == [] then item == Null && Contents() == [] else item == s[0] && Contents() == s[1..]
    {
      var node := head;
      if node == null {
        return Null;
      }
      assert LinkedAt(nodes, 0);
      if tail == head {
        tail := null;
        head := null;
      } else {
        head := head.next;
        head.prev := null;
      }
      length := length - 1;
      item := node.value;
      nodes := nodes[1..];
      forall i | 0 <= i < |nodes| ensures LinkedAt(nodes, i) {
        assert old(LinkedAt(nodes, i + 1));
      }
      ContentsAre(old(Contents())[1..]);
    }

    /** `list_clear`; the nodes themselves are only released. */
    method Clear()
      requires Valid()
      modifies this
      ensures Valid() && Contents() == []
    {
      head, tail, length, nodes := null, null, 0, [];
    }

    /** `list_first`, which the source only allows on a list with an item. */
    method First() returns (item: Ptr<V>)
      requires Valid() && Contents() != []
      ensures item == Contents()[0]
    {
      item := head.value;
    }

    /** `list_empty` */
    method IsEmpty() returns (empty: bool)
      requires Valid()
      ensures empty <==> Contents() == []
    {
      empty := length == 0;
    }

    static ghost predicate Kept(other: List<V>, contents: seq<Ptr<V>>, nodes: seq<LNode<V>>)
      reads other, other.nodes
    {
      other.Valid() && other.Contents() == contents && other.nodes == nodes
    }

    /** Pushes the item of the i-th node of a distinct list and goes on to the next node. */
    method PushFrom(other: List<V>, node: LNode<V>, memory: bool, ghost i: nat) returns (ok: bool, next: LNode?<V>)
      requires Valid() && other.Valid() && Repr() !! other.Repr()
      requires i < |other.nodes| && node == other.nodes[i]
      modifies Repr()
      ensures Valid() && fresh(Repr() - old(Repr())) && Repr() !! other.Repr()
      ensures Kept(other, old(other.Contents()), old(other.nodes))
      ensures ok == memory
      ensures Contents() == if ok then old(Contents()) + [other.Contents()[i]] else old(Contents())
      ensures next == if i + 1 < |other.nodes| then other.nodes[i + 1] else null
    {
      ok := Push(node.value, memory);
      assert LinkedAt(other.nodes, i);
      next := node.next;
    }

    /** `list_concat`, for distinct lists. Where there is no memory for one of the nodes, the items
        before it are appended. */
    method Concat(other: List<V>, memory: seq<bool>) returns (ok: bool)
      requires Valid() && other.Valid() && Repr() !! other.Repr()
      modifies Repr()
      ensures Valid() && fresh(Repr() - old(Repr()))
      ensures Kept(other, old(other.Contents()), old(other.nodes))
      ensures ok <==> AllGranted(memory, |old(other.Contents())|)
      ensures Contents() == old(Contents()) + old(other.Contents())[..Granted(memory, |old(other.Contents())|)]
    {
      ghost var base, o, nodes' := Contents(), other.Contents(), other.nodes;
      var node, n := other.head, 0;
      while node != null
        invariant Valid() && fresh(Repr() - old(Repr())) && Repr() !! other.Repr()
        invariant Kept(other, o, nodes')
        invariant 0 <= n <= |o| && node == if n < |o| then nodes'[n] else null
        invariant Contents() == base + o[..n] && Granted(memory, n) == n
        decreases |o| - n
      {
        var pushed, next := PushFrom(other, node, Supply(memory, n), n);
        if !pushed {
          GrantedStops(memory, n, |o|);
          GrantedAll(memory, |o|);
          return false;
        }
        TakeOneMore(base, o, n);
        node := next;
        n := n + 1;
      }
      GrantedAll(memory, |o|);
      return true;
    }

    /** `list_clone`: null exactly if some allocation failed. */
    method Clone(header: bool, memory: seq<bool>) returns (clone: List?<V>)
      requires Valid()
      ensures clone != null <==> header && AllGranted(memory, |Contents()|)
      ensures clone != null ==> fresh(clone.Repr()) && clone.Valid() && clone.Contents() == Contents()
    {
      clone := Create(header);
      if clone == null {
        return null;
      }
      var ok := clone.Concat(this, memory);
      if !ok {
        return null;
      }
      assert Contents()[..|Contents()|] == Contents();
    }

    /** The values met by following `next` from e, for at most k nodes. */
    ghost function Forward(e: LNode?<V>, k: nat): seq<Ptr<V>>
      reads this, nodes
    {
      if k == 0 || e == null || e !in nodes then [] else [e.value] + Forward(e.next, k - 1)
    }

    /** The values met by following `prev`. */
    ghost function Backward(e: LNode?<V>, k: nat): seq<Ptr<V>>
      reads this, nodes
    {
      if k == 0 || e == null || e !in nodes then [] else [e.value] + Backward(e.prev, k - 1)
    }

    lemma {:induction false} ForwardFrom(i: nat)
      requires Valid() && i <= |nodes|
      ensures Forward(if i < |nodes| then nodes[i] else null, |nodes| - i) == Contents()[i..]
      decreases |nodes| - i
    {
      if i < |nodes| {
        assert LinkedAt(nodes, i);
        ForwardFrom(i + 1);
        assert Contents()[i..] == [Contents()[i]] + Contents()[i + 1..];
      }
    }

    lemma {:induction false} BackwardFrom(i: nat)
      requires Valid() && i <= |nodes|
      ensures Backward(if i > 0 then nodes[i - 1] else null, i) == Reversed(Contents()[..i])
      decreases i
    {
      if i > 0 {
        assert LinkedAt(nodes, i - 1);
        BackwardFrom(i - 1);
        var s := Contents()[..i];
        assert s[..|s| - 1] == Contents()[..i - 1];
      }
    }

    /** Walking from the tail through `prev` meets the contents in reverse, walking from the head
        through `next` meets them in order. */
    lemma WalksAgree()
      requires Valid()
      ensures Forward(head, length) == Contents()
      ensures Backward(tail, length) == Reversed(Forward(head, length))
    {
      ForwardFrom(0);
      BackwardFrom(|nodes|);
      assert Contents()[..|nodes|] == Contents() && Contents()[0..] == Contents();
    }
  }

  function Reversed<T>(s: seq<T>): seq<T> {
    if s == [] then [] else [s[|s| - 1]] + Reversed(s[..|s| - 1])
  }

  /** The items before the first null one. */
  function BeforeNull<V>(s: seq<Ptr<V>>): (r: seq<Ptr<V>>)
    ensures |r| <= |s| && r == s[..|r|]
    ensures |r| < |s| ==> s[|r|] == Null
    ensures forall i :: 0 <= i < |r| ==> r[i] != Null
  {
    if s == [] || s[0] == Null then [] else [s[0]] + BeforeNull(s[1..])
  }

  /** The iterator of `list_iterator` and `list_next_node`: it yields values, so a null value
      looks like the end. */
  class Cursor<V> {
    var index: nat
    var iterable: LNode?<V>
    var current: Ptr<V>
    ghost const nodes: seq<LNode<V>>
    ghost var passed: nat

    constructor (list: List<V>)
      requires list.Valid()
      ensures Valid() && nodes == list.nodes && passed == 0 && index == 0 && current == Null
    {
      index := 0;
      iterable := list.head;
      current := Null;
      nodes := list.nodes;
      passed := 0;
    }

    /** Where the cursor stands. */
    ghost predicate Valid()
      reads this, nodes`next, nodes`prev
    {
      && passed <= |nodes| && iterable == (if passed < |nodes| then nodes[passed] else null)
      && forall i {:trigger LinkedAt(nodes, i)} :: 0 <= i < |nodes| ==> LinkedAt(nodes, i)
    }

    /** `list_next_node` */
    method Next() returns (item: Ptr<V>)
      requires Valid()
      modifies this
      ensures Valid() && item == current
      ensures if old(passed) < |nodes| then
          && passed == old(passed) + 1 && item == old(nodes[passed].value)
          && index == if old(current == Null && index == 0) then old(index) else old(index) + 1
        else passed == old(passed) && item == Null && index == old(index)
    {
      var node := iterable;
      var first := current.Null? && index == 0;
      if node != null {
        assert LinkedAt(nodes, passed);
        iterable := node.next;
        current := node.value;
        if !first {
          index := index + 1;
        }
        passed := passed + 1;
      } else {
        current := Null;
      }
      return current;
    }
  }

  lemma {:induction false} NullAt<V>(s: seq<Ptr<V>>, n: nat)
    requires n <= |s| && (forall i :: 0 <= i < n ==> s[i] != Null) && (n < |s| ==> s[n] == Null)
    ensures |BeforeNull(s)| == n && (n == |s| <==> Null !in s)
  {
    assert forall i :: 0 <= i < |BeforeNull(s)| ==> s[i] != Null;
    assert n < |s| ==> s[n] in s;
  }

  /** The loop of the documentation visits the items before the first null one, each with its
      position; so it visits the whole list if and only if no item is null. */
  method Traverse<V>(list: List<V>) returns (visited: seq<(nat, Ptr<V>)>)
    requires list.Valid()
    ensures |visited| == |BeforeNull(list.Contents())|
    ensures forall i :: 0 <= i < |visited| ==> visited[i] == (i, list.Contents()[i])
    ensures |visited| == |list.Contents()| <==> Null !in list.Contents()
  {
    visited := [];
    ghost var s := list.Contents();
    var cursor := new Cursor(list);
    var item := cursor.Next();
    while !item.Null?
      invariant cursor.Valid() && cursor.nodes == list.nodes && fresh(cursor) && item == cursor.current
      invariant |visited| <= |s|
      invariant item.Null? ==> |visited| < |s| ==> s[|visited|] == Null
      invariant !item.Null? ==>
        |visited| < |s| && cursor.passed == |visited| + 1 && item == s[|visited|] && cursor.index == |visited|
      invariant forall i :: 0 <= i < |visited| ==> s[i] != Null && visited[i] == (i, s[i])
      decreases |s| - |visited|, !item.Null?
    {
      visited := visited + [(cursor.index, item)];
      item := cursor.Next();
    }
    NullAt(s, |visited|);
  }
}
