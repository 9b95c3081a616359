/** The least-recently-used cache: a hash table over the nodes of a doubly linked list. */
module LruCache {
  import opened Keys

  /** `s` without its element at `i`. */
  function Drop<T>(s: seq<T>, i: nat): seq<T>
    requires i < |s|
  {
    seq(|s| - 1, k requires 0 <= k < |s| - 1 => if k < i then s[k] else s[k + 1])
  }

  /** `s` without `x`, in the same order. */
  function Without<T(==)>(s: seq<T>, x: T): seq<T> {
    if s == [] then [] else if s[0] == x then Without(s[1..], x) else [s[0]] + Without(s[1..], x)
  }

  /** `s` with `x` moved to, or put at, the front. */
  function ToFront<T(==)>(s: seq<T>, x: T): seq<T> {
    [x] + Without(s, x)
  }

  ghost predicate Differ<T>(s: seq<T>, i: nat, j: nat)
    requires i < |s| && j < |s|
  {
    s[i] != s[j]
  }

  ghost predicate Distinct<T>(s: seq<T>) {
    forall i, j {:trigger Differ(s, i, j)} :: 0 <= i < j < |s| ==> Differ(s, i, j)
  }

  lemma {:induction false} WithoutAbsent<T>(s: seq<T>, x: T)
    requires x !in s
    ensures Without(s, x) == s
  {
    if s != [] {
      WithoutAbsent(s[1..], x);
    }
  }

  lemma {:induction false} WithoutDrops<T>(s: seq<T>, i: nat)
    requires i < |s| && Distinct(s)
    ensures Without(s, s[i]) == Drop(s, i) && s[i] !in Drop(s, i)
  {
    if i == 0 {
      forall k | 1 <= k < |s| ensures s[k] != s[0] {
        assert Differ(s, 0, k);
      }
      WithoutAbsent(s[1..], s[0]);
      assert Drop(s, 0) == s[1..];
    } else {
      assert Differ(s, 0, i);
      forall a, b | 0 <= a < b < |s[1..]| ensures Differ(s[1..], a, b) {
        assert Differ(s, a + 1, b + 1);
      }
      WithoutDrops(s[1..], i - 1);
      assert Drop(s, i) == [s[0]] + Drop(s[1..], i - 1);
    }
  }

  lemma DistinctPush<T>(s: seq<T>, x: T)
    requires Distinct(s) && x !in s
    ensures Distinct(s + [x])
  {
    forall i, j | 0 <= i < j < |s| + 1 ensures Differ(s + [x], i, j) {
      assert j < |s| ==> Differ(s, i, j);
    }
  }

  lemma DistinctPop<T>(s: seq<T>)
    requires Distinct(s) && s != []
    ensures Distinct(s[1..]) && s[0] !in s[1..]
  {
    forall i, j | 0 <= i < j < |s| - 1 ensures Differ(s[1..], i, j) {
      assert Differ(s, i + 1, j + 1);
    }
    forall j | 0 <= j < |s[1..]| ensures s[1..][j] != s[0] {
      assert Differ(s, 0, j + 1);
    }
  }

  /** A duplicate-free list is as long as the set of its elements. */
  lemma {:induction false} CountElements<T>(s: seq<T>, elements: set<T>)
    requires Distinct(s)
    requires forall x :: x in elements <==> x in s
    ensures |elements| == |s|
  {
    if s == [] {
      assert elements == {};
    } else {
      DistinctPop(s);
      assert s[0] in elements;
      forall x | x in elements - {s[0]} ensures x in s[1..] {
        assert x in s;
      }
      CountElements(s[1..], elements - {s[0]});
    }
  }

  /** The position of the last use of `x`; -1 when it was never used. */
  function LastUse<T(==)>(history: seq<T>, x: T): (n: int)
    ensures -1 <= n < |history|
    ensures n >= 0 ==> history[n] == x
    ensures forall m :: n < m < |history| ==> history[m] != x
  {
    if history == [] then -1
    else if history[|history| - 1] == x then |history| - 1
    else LastUse(history[..|history| - 1], x)
  }

  /** The key at `i` was used, and later than any key at a place `j` after it. */
  ghost predicate Later<T>(order: seq<T>, history: seq<T>, i: nat, j: nat)
    requires i < |order| && j < |order|
  {
    LastUse(history, order[i]) >= 0 && (i < j ==> LastUse(history, order[i]) > LastUse(history, order[j]))
  }

  /** The keys are listed from the latest last use to the earliest. */
  ghost predicate ByRecency<T>(order: seq<T>, history: seq<T>) {
    forall i, j {:trigger Later(order, history, i, j)} :: 0 <= i <= j < |order| ==> Later(order, history, i, j)
  }

  lemma LastUseExtends<T>(history: seq<T>, x: T, y: T)
    ensures LastUse(history + [x], y) == if y == x then |history| else LastUse(history, y)
  {
    assert (history + [x])[..|history|] == history;
  }

  lemma RecencyDistinct<T>(order: seq<T>, history: seq<T>)
    requires ByRecency(order, history)
    ensures Distinct(order)
  {
    forall i, j | 0 <= i < j < |order| ensures Differ(order, i, j) {
      assert Later(order, history, i, j);
    }
  }

  lemma DropByRecency<T>(order: seq<T>, history: seq<T>, i: nat)
    requires i < |order| && ByRecency(order, history)
    ensures ByRecency(Drop(order, i), history)
    ensures order[i] !in Drop(order, i) && Drop(order, i) == Without(order, order[i])
  {
    RecencyDistinct(order, history);
    WithoutDrops(order, i);
    var d := Drop(order, i);
    forall a, b | 0 <= a <= b < |d| ensures Later(d, history, a, b) {
      assert Later(order, history, if a < i then a else a + 1, if b < i then b else b + 1);
    }
  }

  /** Putting a key at the front records its use. */
  lemma PushByRecency<T>(order: seq<T>, history: seq<T>, x: T)
    requires ByRecency(order, history) && x !in order
    ensures ByRecency([x] + order, history + [x])
  {
    var o, h := [x] + order, history + [x];
    forall a, b | 0 <= a <= b < |o| ensures Later(o, h, a, b) {
      LastUseExtends(history, x, o[a]);
      LastUseExtends(history, x, o[b]);
      if a > 0 {
        assert Later(order, history, a - 1, b - 1);
      }
    }
  }

  class ListNode<K, V> {
    const key: K
    var value: V
    var prev: ListNode?<K, V>
    var next: ListNode?<K, V>
    /** Where the node stands in the list. */
    ghost var place: int

    constructor (key: K, value: V)
      ensures this.key == key && this.value == value
    {
      this.key, this.value, prev, next := key, value, null, null;
    }
  }

  ghost predicate Placed<K, V>(s: seq<ListNode<K, V>>)
    reads s`place
  {
    forall i :: 0 <= i < |s| ==> s[i].place == i
  }

  ghost predicate NextAt<K, V>(s: seq<ListNode<K, V>>, i: nat)
    requires i < |s|
    reads s`next
  {
    s[i].next == if i + 1 < |s| then s[i + 1] else null
  }

  ghost predicate PrevAt<K, V>(s: seq<ListNode<K, V>>, i: nat)
    requires i < |s|
    reads s`prev
  {
    s[i].prev == if i > 0 then s[i - 1] else null
  }

  /** Following `next` from `first` lists `s`. */
  ghost predicate Forward<K, V>(s: seq<ListNode<K, V>>, first: ListNode?<K, V>)
    reads s`next
  {
    && first == (if s == [] then null else s[0])
    && forall i {:trigger NextAt(s, i)} :: 0 <= i < |s| ==> NextAt(s, i)
  }

  /** Following `prev` from `last` lists `s` backwards. */
  ghost predicate Backward<K, V>(s: seq<ListNode<K, V>>, last: ListNode?<K, V>)
    reads s`prev
  {
    && last == (if s == [] then null else s[|s| - 1])
    && forall i {:trigger PrevAt(s, i)} :: 0 <= i < |s| ==> PrevAt(s, i)
  }

  /** The node at `i` has the key at `i`, and the table finds it. */
  ghost predicate FoundAt<K, V>(nodes: seq<ListNode<K, V>>, order: seq<K>, searcher: map<K, ListNode<K, V>>, i: nat)
    requires i < |order| == |nodes|
  {
    nodes[i].key == order[i] && order[i] in searcher && searcher[order[i]] == nodes[i]
  }

  ghost predicate Listed<K>(order: seq<K>, k: K) {
    k in order
  }

  /** The table finds exactly the nodes of the list. */
  ghost predicate Matches<K, V>(nodes: seq<ListNode<K, V>>, order: seq<K>, searcher: map<K, ListNode<K, V>>) {
    && |order| == |nodes|
    && (forall i {:trigger FoundAt(nodes, order, searcher, i)} :: 0 <= i < |nodes| ==> FoundAt(nodes, order, searcher, i))
    && (forall k {:trigger Listed(order, k)} :: k in searcher ==> Listed(order, k))
  }

  /** Moving a node to the front moves its key there, and records its use. */
  lemma TouchMatches<K, V>(nodes: seq<ListNode<K, V>>, order: seq<K>, searcher: map<K, ListNode<K, V>>, history: seq<K>, i: nat)
    requires Matches(nodes, order, searcher) && ByRecency(order, history) && i < |nodes|
    ensures Matches([nodes[i]] + Drop(nodes, i), ToFront(order, order[i]), searcher)
    ensures ByRecency(ToFront(order, order[i]), history + [order[i]])
  {
    DropByRecency(order, history, i);
    PushByRecency(Drop(order, i), history, order[i]);
    var touched, t := [order[i]] + Drop(order, i), [nodes[i]] + Drop(nodes, i);
    forall k | k in searcher ensures Listed(touched, k) {
      assert Listed(order, k);
      var j :| 0 <= j < |order| && order[j] == k;
      assert touched[if j < i then j + 1 else if j == i then 0 else j] == k;
    }
    forall k | 0 <= k < |t| ensures FoundAt(t, touched, searcher, k) {
      assert FoundAt(nodes, order, searcher, if k == 0 then i else if k <= i then k - 1 else k);
    }
  }

  lemma PushMatches<K, V>(nodes: seq<ListNode<K, V>>, order: seq<K>, searcher: map<K, ListNode<K, V>>, history: seq<K>,
                          node: ListNode<K, V>)
    requires Matches(nodes, order, searcher) && ByRecency(order, history) && node.key !in searcher
    ensures node.key !in order
    ensures Matches([node] + nodes, ToFront(order, node.key), searcher[node.key := node])
    ensures ByRecency(ToFront(order, node.key), history + [node.key])
  {
    var s, o, n := searcher[node.key := node], [node.key] + order, [node] + nodes;
    AbsentKey(nodes, order, searcher, node.key);
    PushByRecency(order, history, node.key);
    forall k | k in s ensures Listed(o, k) {
      assert k != node.key ==> Listed(order, k);
    }
    forall k | 0 <= k < |n| ensures FoundAt(n, o, s, k) {
      if k > 0 {
        assert FoundAt(nodes, order, searcher, k - 1);
      }
    }
  }

  lemma RemoveMatches<K, V>(nodes: seq<ListNode<K, V>>, order: seq<K>, searcher: map<K, ListNode<K, V>>, history: seq<K>, i: nat)
    requires Matches(nodes, order, searcher) && ByRecency(order, history) && i < |nodes|
    ensures Matches(Drop(nodes, i), Without(order, order[i]), searcher - {order[i]})
    ensures ByRecency(Without(order, order[i]), history)
  {
    DropByRecency(order, history, i);
    var s, o, n := searcher - {order[i]}, Drop(order, i), Drop(nodes, i);
    forall k | k in s ensures Listed(o, k) {
      assert Listed(order, k);
      var j :| 0 <= j < |order| && order[j] == k;
      assert o[if j < i then j else j - 1] == k;
    }
    forall k | 0 <= k < |n| ensures FoundAt(n, o, s, k) {
      assert FoundAt(nodes, order, searcher, if k < i then k else k + 1);
      assert o[k] in o;
    }
  }

  lemma AbsentKey<K, V>(nodes: seq<ListNode<K, V>>, order: seq<K>, searcher: map<K, ListNode<K, V>>, key: K)
    requires Matches(nodes, order, searcher) && key !in searcher
    ensures key !in order && Without(order, key) == order
  {
    forall k | 0 <= k < |order| ensures order[k] != key {
      assert FoundAt(nodes, order, searcher, k);
    }
    WithoutAbsent(order, key);
  }

  /** Renumbers the nodes from `i` on, which are all off by `d`. */
  ghost method Renumber<K, V>(s: seq<ListNode<K, V>>, i: nat, d: int)
    requires d >= 0 || i == 0
    requires forall k :: 0 <= k < |s| ==> s[k].place == if k < i then k else k + d
    modifies s`place
    ensures Placed(s)
  {
    forall k | 0 <= k < |s| {
      s[k].place := k;
    }
  }

  class LruCache<K(==), V> {
    var searcher: map<K, ListNode<K, V>>
    var front: ListNode?<K, V>
    var tail: ListNode?<K, V>
    /** The list and its keys, from the most to the least recently used. */
    ghost var nodes: seq<ListNode<K, V>>
    ghost var order: seq<K>
    /** What the cache holds, and every use of a key so far. */
    ghost var entries: map<K, V>
    ghost var history: seq<K>

    /** The pointers are those of the list. */
    ghost predicate Linked()
      reads this, nodes
    {
      Placed(nodes) && Forward(nodes, front) && Backward(nodes, tail)
    }

    /** The table finds exactly the nodes of the list, each by its key. */
    ghost predicate Indexed()
      reads this, searcher.Values`value
    {
      && Matches(nodes, order, searcher)
      && entries.Keys == searcher.Keys
      && forall k :: k in searcher ==> searcher[k].key == k && entries[k] == searcher[k].value
    }

    ghost predicate Valid()
      reads this, nodes, searcher.Values
    {
      Linked() && Indexed() && ByRecency(order, history)
    }

    constructor ()
      ensures Valid() && order == [] && entries == map[] && nodes == []
    {
      searcher, front, tail := map[], null, null;
      nodes, order, entries, history := [], [], map[], [];
    }

    method Count() returns (n: nat)
      requires Valid()
      ensures n == |entries|
    {
      n := |searcher|;
      assert |searcher.Keys| == |entries.Keys|;
    }

    /** Before the node of the list, or at its front, `node` is skipped. */
    method BypassForward(node: ListNode<K, V>, ghost i: nat)
      requires Placed(nodes) && Forward(nodes, front)
      requires i < |nodes| && node == nodes[i] && PrevAt(nodes, i)
      modifies `front, nodes`next
      ensures Forward(Drop(nodes, i), front) && node.next == old(node.next)
    {
      assert NextAt(nodes, i);
      if node.prev != null {
        node.prev.next := node.next;
      } else {
        front := node.next;
      }
      ghost var s := Drop(nodes, i);
      forall k | 0 <= k < |s| ensures NextAt(s, k) {
        assert old(NextAt(nodes, if k < i then k else k + 1));
      }
    }

    method BypassBackward(node: ListNode<K, V>, ghost i: nat)
      requires Placed(nodes) && Backward(nodes, tail)
      requires i < |nodes| && node == nodes[i] && NextAt(nodes, i)
      modifies `tail, nodes`prev
      ensures Backward(Drop(nodes, i), tail) && node.prev == old(node.prev)
    {
      assert PrevAt(nodes, i);
      if node.next != null {
        node.next.prev := node.prev;
      } else {
        tail := node.prev;
      }
      ghost var s := Drop(nodes, i);
      forall k | 0 <= k < |s| ensures PrevAt(s, k) {
        assert old(PrevAt(nodes, if k < i then k else k + 1));
      }
    }

    ghost method Delist(i: nat)
      requires Placed(nodes) && i < |nodes|
      modifies `nodes, nodes`place
      ensures nodes == Drop(old(nodes), i) && Placed(nodes) && old(nodes)[i] !in nodes
    {
      nodes := Drop(nodes, i);
      Renumber(nodes, i, 1);
    }

    /** Takes a node out of the list. */
    method Detach(node: ListNode<K, V>, ghost i: nat)
      requires Linked() && i < |nodes| && node == nodes[i]
      modifies `front, `tail, `nodes, nodes`prev, nodes`next, nodes`place
      ensures Linked() && nodes == Drop(old(nodes), i) && node !in nodes
    {
      assert PrevAt(nodes, i) && NextAt(nodes, i);
      BypassForward(node, i);
      assert NextAt(nodes, i);
      BypassBackward(node, i);
      Delist(i);
    }

    /** Links a node before the front of the list; `tail` is already set when the list is empty. */
    method LinkFront(node: ListNode<K, V>)
      requires Forward(nodes, front) && node !in nodes
      requires if nodes == [] then tail == node else Backward(nodes, tail)
      modifies `front, node`prev, node`next, nodes`prev
      ensures Forward([node] + nodes, front) && Backward([node] + nodes, tail)
    {
      node.prev := null;
      node.next := front;
      if front != null {
        front.prev := node;
      }
      front := node;
      ghost var s := [node] + nodes;
      forall k | 0 <= k < |s| ensures NextAt(s, k) && PrevAt(s, k) {
        if k > 0 {
          assert s[k] == nodes[k - 1];
          assert old(NextAt(nodes, k - 1)) && old(PrevAt(nodes, k - 1)) && old(PrevAt(nodes, 0));
        }
      }
    }

    ghost method Enlist(node: ListNode<K, V>)
      requires Placed(nodes) && node !in nodes
      modifies `nodes, node`place, nodes`place
      ensures nodes == [node] + old(nodes) && Placed(nodes)
    {
      node.place := -1;
      nodes := [node] + nodes;
      Renumber(nodes, 0, -1);
    }

    /** Moves a node to the front. */
    method LruTouch(node: ListNode<K, V>, ghost i: nat)
      requires Linked() && i < |nodes| && node == nodes[i]
      modifies `front, `tail, `nodes, nodes`prev, nodes`next, nodes`place
      ensures Linked() && nodes == [node] + Drop(old(nodes), i)
    {
      assert PrevAt(nodes, i);
      if node.prev == null {
        assert nodes == [node] + Drop(nodes, i);
        return;
      }
      Detach(node, i);
      LinkFront(node);
      Enlist(node);
    }

    method LruPush(node: ListNode<K, V>)
      requires Linked() && node !in nodes
      modifies `front, `tail, `nodes, `searcher, node`prev, node`next, node`place, nodes`prev, nodes`place
      ensures Linked() && nodes == [node] + old(nodes)
      ensures searcher == old(searcher)[node.key := node]
    {
      if tail == null {
        tail := node;
      }
      LinkFront(node);
      Enlist(node);
      searcher := searcher[node.key := node];
    }

    method LruRemove(node: ListNode<K, V>, ghost i: nat)
      requires Linked() && i < |nodes| && node == nodes[i]
      modifies `front, `tail, `nodes, `searcher, nodes`prev, nodes`next, nodes`place
      ensures Linked() && nodes == Drop(old(nodes), i)
      ensures searcher == old(searcher) - {node.key}
    {
      Detach(node, i);
      searcher := searcher - {node.key};
    }

    /** Touches the node of a key. */
    method Use(key: K)
      requires Valid() && key in searcher
      modifies `front, `tail, `nodes, `order, `history, nodes`prev, nodes`next, nodes`place
      ensures Valid() && order == ToFront(old(order), key) && history == old(history) + [key]
      ensures forall i :: 0 <= i < |nodes| ==> nodes[i] in old(nodes)
    {
      assert Listed(order, key);
      ghost var i :| 0 <= i < |order| && order[i] == key;
      assert FoundAt(nodes, order, searcher, i);
      TouchMatches(nodes, order, searcher, history, i);
      LruTouch(searcher[key], i);
      order, history := ToFront(order, key), history + [key];
    }

    /** The value of a key, whose use this is. */
    method Get(key: K) returns (r: Option<V>)
      requires Valid()
      modifies this, nodes
      ensures Valid() && entries == old(entries)
      ensures r == if key in entries then Some(entries[key]) else None
      ensures order == if key in entries then ToFront(old(order), key) else old(order)
      ensures history == if key in entries then old(history) + [key] else old(history)
      ensures forall i :: 0 <= i < |nodes| ==> nodes[i] in old(nodes)
    {
      if key !in searcher {
        return None;
      }
      Use(key);
      r := Some(searcher[key].value);
    }

    method Insert(key: K, value: V)
      requires Valid() && key !in searcher
      modifies this, nodes
      ensures Valid() && entries == old(entries)[key := value]
      ensures order == ToFront(old(order), key) && history == old(history) + [key]
      ensures forall i :: 0 <= i < |nodes| ==> nodes[i] in old(nodes) || fresh(nodes[i])
    {
      var ln := new ListNode(key, value);
      PushMatches(nodes, order, searcher, history, ln);
      LruPush(ln);
      order, history := ToFront(order, key), history + [key];
      entries := entries[key := value];
    }

    /** Stores a value under a key, whose use this is. */
    method Put(key: K, value: V)
      requires Valid()
      modifies this, nodes
      ensures Valid() && entries == old(entries)[key := value]
      ensures order == ToFront(old(order), key) && history == old(history) + [key]
      ensures forall i :: 0 <= i < |nodes| ==> nodes[i] in old(nodes) || fresh(nodes[i])
    {
      if key in searcher {
        assert Listed(order, key);
        ghost var i :| 0 <= i < |order| && order[i] == key;
        assert FoundAt(nodes, order, searcher, i);
        searcher[key].value := value;
        entries := entries[key := value];
        Use(key);
      } else {
        Insert(key, value);
      }
    }

    method Remove(key: K)
      requires Valid()
      modifies this, nodes
      ensures Valid() && entries == old(entries) - {key}
      ensures order == Without(old(order), key) && history == old(history)
      ensures forall i :: 0 <= i < |nodes| ==> nodes[i] in old(nodes)
    {
      if key in searcher {
        assert Listed(order, key);
        ghost var i :| 0 <= i < |order| && order[i] == key;
        assert FoundAt(nodes, order, searcher, i);
        RemoveMatches(nodes, order, searcher, history, i);
        LruRemove(searcher[key], i);
        entries, order := entries - {key}, Without(order, key);
      } else {
        AbsentKey(nodes, order, searcher, key);
      }
    }

    /** Visits the keys from the most recently used one. */
    method Foreach() returns (visited: seq<K>)
      requires Valid()
      ensures visited == order
    {
      visited := [];
      var node := front;
      while node != null
        invariant |visited| <= |order| && visited == order[..|visited|]
        invariant node == if |visited| < |nodes| then nodes[|visited|] else null
        decreases |order| - |visited|
      {
        assert FoundAt(nodes, order, searcher, |visited|);
        assert NextAt(nodes, |visited|);
        visited := visited + [node.key];
        node := node.next;
      }
    }

    /** Visits the values from the least recently used one until one is accepted: the accepted
        value whose key was used longest ago. */
    method ForeachReverse(accept: V ~> bool) returns (r: Option<V>, ghost key: Option<K>)
      requires Valid()
      requires forall k :: k in entries ==> accept.requires(entries[k])
      ensures r.None? ==> forall k :: k in entries ==> !accept(entries[k])
      ensures r.Some? ==> key.Some? && key.value in entries && r.value == entries[key.value] && accept(r.value)
      ensures r.Some? ==> forall k :: k in entries && accept(entries[k]) ==>
        LastUse(history, key.value) <= LastUse(history, k)
    {
      var node := tail;
      ghost var i := |order| - 1;
      while node != null
        invariant -1 <= i < |order|
        invariant node == if i >= 0 then nodes[i] else null
        invariant forall j :: i < j < |order| ==> order[j] in entries && !accept(entries[order[j]])
        decreases i
      {
        assert FoundAt(nodes, order, searcher, i) && PrevAt(nodes, i);
        if accept(node.value) {
          key := Some(node.key);
          forall k | k in entries && accept(entries[k]) ensures LastUse(history, node.key) <= LastUse(history, k) {
            assert Listed(order, k);
            var j :| 0 <= j < |order| && order[j] == k;
            assert Later(order, history, j, i);
          }
          return Some(node.value), key;
        }
        node := node.prev;
        i := i - 1;
      }
      forall k | k in entries ensures !accept(entries[k]) {
        assert Listed(order, k);
      }
      r, key := None, None;
    }
  }
}
